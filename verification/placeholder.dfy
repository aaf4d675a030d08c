/** The text substitution inside `replace_temperature_strings`:
    `text.replace("TEMP", str(n))`. */
module Placeholder {
  import Decimal

  const Token: string := "TEMP"

  /** `Token` occurs in `s` starting at index `i`. */
  predicate TokenAt(s: string, i: int) {
    0 <= i && i + |Token| <= |s| && s[i..i + |Token|] == Token
  }

  predicate HasToken(s: string) {
    exists i :: 0 <= i < |s| && TokenAt(s, i)
  }

  /** A replacement that cannot take part in a new `Token`: non-empty and
      free of the letters `Token` is made of. */
  predicate Inert(rep: string) {
    |rep| > 0 && forall i :: 0 <= i < |rep| ==> rep[i] !in Token
  }

  /** Python's `str.replace(Token, rep)`: scanning left to right, every
      occurrence that does not overlap an earlier replaced one is replaced. */
  function ReplaceToken(s: string, rep: string): string
    decreases |s|
  {
    if |s| < |Token| then
      s
    else if s[..|Token|] == Token then
      rep + ReplaceToken(s[|Token|..], rep)
    else
      [s[0]] + ReplaceToken(s[1..], rep)
  }

  /** The text written into a template for the integer temperature `n`: no
      placeholder is left, and the text changes (and so is written back)
      exactly when it held one. */
  function Substitute(text: string, n: int): (r: string)
    ensures !HasToken(r)
    ensures r != text <==> HasToken(text)
  {
    FormatIsInert(n);
    InertReplaceChangesIff(text, Decimal.Format(n));
    ReplaceToken(text, Decimal.Format(n))
  }

  lemma {:induction false} ShortHasNoToken(s: string)
    requires |s| < |Token|
    ensures !HasToken(s)
  {
  }

  lemma TokenAtTail(s: string, k: nat, i: int)
    requires k <= |s| && TokenAt(s[k..], i)
    ensures TokenAt(s, i + k)
  {
    assert s[k..][i..i + |Token|] == s[i + k..i + k + |Token|];
  }

  /** The decimal text of an integer holds digits and perhaps a minus sign,
      none of which is a letter of `Token`. */
  lemma FormatIsInert(n: int)
    ensures Inert(Decimal.Format(n))
  {
    var d := Decimal.Format(n);
    assert forall i :: 0 <= i < |d| ==> d[i] == '-' || Decimal.IsDigit(d[i]);
  }

  /** A prefix of the output made only of `Token` letters was copied from
      the input: a replacement never starts it. */
  lemma {:induction false} PrefixCopied(t: string, rep: string, k: nat)
    requires Inert(rep)
    requires k <= |ReplaceToken(t, rep)|
    ensures (forall i :: 0 <= i < k ==> ReplaceToken(t, rep)[i] in Token) ==>
      k <= |t| && ReplaceToken(t, rep)[..k] == t[..k]
    decreases |t|
  {
    var r := ReplaceToken(t, rep);
    if |t| < |Token| {
    } else if t[..|Token|] == Token {
      if k > 0 {
        assert r[0] == rep[0];
        assert r[0] !in Token;
      }
    } else if k > 0 {
      var tail := ReplaceToken(t[1..], rep);
      assert r == [t[0]] + tail;
      assert forall i :: 0 <= i < k - 1 ==> tail[i] == r[i + 1];
      PrefixCopied(t[1..], rep, k - 1);
      if forall i :: 0 <= i < k ==> r[i] in Token {
        assert r[..k] == [t[0]] + tail[..k - 1];
        assert t[..k] == [t[0]] + t[1..][..k - 1];
      }
    }
  }

  /** A `Token` in `a + b` that does not start inside `a` lies in `b`. */
  lemma TokenInConcat(a: string, b: string, p: int)
    requires TokenAt(a + b, p) && p >= |a|
    ensures TokenAt(b, p - |a|)
  {
    assert (a + b)[p..p + |Token|] == b[p - |a|..p - |a| + |Token|];
  }

  lemma NoTokenAfterInert(rep: string, tail: string)
    requires Inert(rep) && !HasToken(tail)
    ensures !HasToken(rep + tail)
  {
    var r := rep + tail;
    forall p | 0 <= p < |r|
      ensures !TokenAt(r, p)
    {
      if p < |rep| {
        assert r[p] == rep[p];
        assert r[p] != Token[0];
      } else if TokenAt(r, p) {
        TokenInConcat(rep, tail, p);
      }
    }
  }

  lemma NoTokenAfterChar(c: char, tail: string)
    requires !TokenAt([c] + tail, 0) && !HasToken(tail)
    ensures !HasToken([c] + tail)
  {
    forall p | 0 < p < |[c] + tail|
      ensures !TokenAt([c] + tail, p)
    {
      if TokenAt([c] + tail, p) {
        TokenInConcat([c], tail, p);
      }
    }
  }

  /** After the replacement no `Token` is left: the scan moves past every
      occurrence it replaces, and an inert replacement cannot complete one. */
  lemma {:induction false} NoTokenAfterReplace(s: string, rep: string)
    requires Inert(rep)
    ensures !HasToken(ReplaceToken(s, rep))
    decreases |s|
  {
    if |s| < |Token| {
      ShortHasNoToken(s);
    } else if s[..|Token|] == Token {
      NoTokenAfterReplace(s[|Token|..], rep);
      NoTokenAfterInert(rep, ReplaceToken(s[|Token|..], rep));
    } else {
      var r := ReplaceToken(s, rep);
      var tail := ReplaceToken(s[1..], rep);
      NoTokenAfterReplace(s[1..], rep);
      assert r == [s[0]] + tail;
      if TokenAt(r, 0) {
        assert forall i :: 0 <= i < |Token| ==> r[i] == Token[i];
        PrefixCopied(s, rep, |Token|);
      }
      NoTokenAfterChar(s[0], tail);
    }
  }

  /** Text without `Token` is returned as it is. */
  lemma {:induction false} ReplaceWithoutToken(s: string, rep: string)
    requires !HasToken(s)
    ensures ReplaceToken(s, rep) == s
    decreases |s|
  {
    if |s| >= |Token| {
      assert !TokenAt(s, 0);
      forall i | TokenAt(s[1..], i)
        ensures false
      {
        TokenAtTail(s, 1, i);
      }
      ReplaceWithoutToken(s[1..], rep);
      assert s == [s[0]] + s[1..];
    }
  }

  /** With an inert replacement no `Token` is left, and the text changes
      exactly when it held one. */
  lemma InertReplaceChangesIff(s: string, rep: string)
    requires Inert(rep)
    ensures !HasToken(ReplaceToken(s, rep))
    ensures ReplaceToken(s, rep) != s <==> HasToken(s)
  {
    NoTokenAfterReplace(s, rep);
    if !HasToken(s) {
      ReplaceWithoutToken(s, rep);
    }
  }

  /** Substituting twice is substituting once. */
  lemma SubstituteIdempotent(text: string, n: int)
    ensures Substitute(Substitute(text, n), n) == Substitute(text, n)
  {
    ReplaceWithoutToken(Substitute(text, n), Decimal.Format(n));
  }

  /** The first placeholder, after a stretch without one, becomes `rep`, and
      the scan goes on right after it. With `ReplaceWithoutToken` this pins
      the result down for every input. */
  lemma {:induction false} ReplaceAtFirst(a: string, b: string, rep: string)
    requires !HasToken(a)
    ensures ReplaceToken(a + Token + b, rep) == a + rep + ReplaceToken(b, rep)
    decreases |a|
  {
    var s := a + Token + b;
    if |a| == 0 {
      assert s == Token + b;
      assert s[..|Token|] == Token && s[|Token|..] == b;
    } else {
      NoTokenAtStart(a, b);
      NoTokenInTail(a);
      assert s[1..] == a[1..] + Token + b;
      ReplaceAtFirst(a[1..], b, rep);
      assert a + rep + ReplaceToken(b, rep) == [a[0]] + (a[1..] + rep + ReplaceToken(b, rep));
    }
  }

  /** No placeholder starts inside a stretch without one, even when it would
      reach into a following `Token`: the first letter of `Token` recurs
      nowhere in it, so it does not overlap itself. */
  lemma NoTokenAtStart(a: string, b: string)
    requires |a| > 0 && !HasToken(a)
    ensures (a + Token + b)[..|Token|] != Token
  {
    var s := a + Token + b;
    if |a| >= |Token| {
      assert a[..|Token|] == s[..|Token|];
      assert !TokenAt(a, 0);
    } else {
      assert s[..|Token|][|a|] == Token[0];
    }
  }

  lemma NoTokenInTail(a: string)
    requires |a| > 0 && !HasToken(a)
    ensures !HasToken(a[1..])
  {
    forall i | 0 <= i < |a| - 1 && TokenAt(a[1..], i)
      ensures false
    {
      TokenAtTail(a, 1, i);
    }
  }

  /** A character in neither the text nor the replacement is not in the result. */
  lemma {:induction false} ReplaceKeepsOut(s: string, rep: string, c: char)
    requires c !in s && c !in rep
    ensures c !in ReplaceToken(s, rep)
    decreases |s|
  {
    if |s| >= |Token| {
      if s[..|Token|] == Token {
        assert c !in s[|Token|..] by {
          assert forall i :: 0 <= i < |s| - |Token| ==> s[|Token|..][i] == s[i + |Token|];
        }
        ReplaceKeepsOut(s[|Token|..], rep, c);
      } else {
        assert c !in s[1..] by {
          assert forall i :: 0 <= i < |s| - 1 ==> s[1..][i] == s[i + 1];
        }
        ReplaceKeepsOut(s[1..], rep, c);
      }
    }
  }

  /** Substitution only adds digits and a minus sign. */
  lemma SubstituteKeepsOut(text: string, n: int, c: char)
    requires c !in text && c != '-' && !Decimal.IsDigit(c)
    ensures c !in Substitute(text, n)
  {
    var d := Decimal.Format(n);
    assert forall i :: 0 <= i < |d| ==> d[i] == '-' || Decimal.IsDigit(d[i]);
    ReplaceKeepsOut(text, d, c);
  }

  /** Replacing the placeholder by itself changes nothing. */
  lemma {:induction false} ReplaceTokenByItself(s: string)
    ensures ReplaceToken(s, Token) == s
    decreases |s|
  {
    if |s| >= |Token| {
      if s[..|Token|] == Token {
        ReplaceTokenByItself(s[|Token|..]);
        assert s == Token + s[|Token|..];
      } else {
        ReplaceTokenByItself(s[1..]);
        assert s == [s[0]] + s[1..];
      }
    }
  }

  /** The example template line `T=TEMP K` at 310 reads `T=310 K`. */
  lemma SubstituteExample(text: string, n: int)
    requires text == "T=TEMP K" && n == 310
    ensures Substitute(text, n) == "T=310 K"
  {
    assert Decimal.Format(n) == "310" by {
      assert Decimal.Digits(3) == "3";
      assert Decimal.Digits(31) == "31";
    }
    assert text == "T=" + Token + " K";
    ReplaceExample("T=", " K", Decimal.Format(n));
  }

  lemma ReplaceExample(a: string, b: string, rep: string)
    requires |a| < |Token| && |b| < |Token|
    ensures ReplaceToken(a + Token + b, rep) == a + rep + b
  {
    ShortHasNoToken(a);
    ShortHasNoToken(b);
    ReplaceWithoutToken(b, rep);
    ReplaceAtFirst(a, b, rep);
  }
}

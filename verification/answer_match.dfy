/** The round-result test of `calculateRoundResults` (server/src/game/game.service.ts:258-262):
    every recorded answer is trimmed and lower-cased, and the round is a match when the
    normalised answers form a set of exactly one value. */
module AnswerMatch {

  /** The code points JavaScript's `String.prototype.trim` removes: the WhiteSpace
      characters (tab, vertical tab, form feed, space, no-break space, byte order mark and
      the Unicode space separators) and the LineTerminator characters. */
  predicate IsTrimmable(c: char) {
    || c == '\t' || c == '\n' || c == '\U{000B}' || c == '\U{000C}' || c == '\r'
    || c == ' ' || c == '\U{00A0}' || c == '\U{1680}'
    || ('\U{2000}' <= c <= '\U{200A}')
    || c == '\U{2028}' || c == '\U{2029}' || c == '\U{202F}' || c == '\U{205F}'
    || c == '\U{3000}' || c == '\U{FEFF}'
  }

  /** `s` without its leading trimmable characters. */
  function TrimStart(s: string): (r: string)
    ensures |r| <= |s|
    ensures forall i :: 0 <= i < |s| - |r| ==> IsTrimmable(s[i])
    ensures r == [] || !IsTrimmable(r[0])
  {
    if |s| > 0 && IsTrimmable(s[0]) then TrimStart(s[1..]) else s
  }

  /** What `TrimStart` keeps is a suffix of its input. */
  lemma {:induction false} TrimStartIsSuffix(s: string)
    ensures TrimStart(s) == s[|s| - |TrimStart(s)|..]
    decreases |s|
  {
    if |s| > 0 && IsTrimmable(s[0]) {
      TrimStartIsSuffix(s[1..]);
      assert s[1..][|s| - 1 - |TrimStart(s)|..] == s[|s| - |TrimStart(s)|..];
    }
  }

  /** `s` without its trailing trimmable characters. */
  function TrimEnd(s: string): (r: string)
    ensures |r| <= |s|
    ensures forall i :: |r| <= i < |s| ==> IsTrimmable(s[i])
    ensures r == [] || !IsTrimmable(r[|r| - 1])
  {
    if |s| > 0 && IsTrimmable(s[|s| - 1]) then TrimEnd(s[..|s| - 1]) else s
  }

  /** What `TrimEnd` keeps is a prefix of its input. */
  lemma {:induction false} TrimEndIsPrefix(s: string)
    ensures TrimEnd(s) == s[..|TrimEnd(s)|]
    decreases |s|
  {
    if |s| > 0 && IsTrimmable(s[|s| - 1]) {
      TrimEndIsPrefix(s[..|s| - 1]);
    }
  }

  /** Every character of `s` is trimmable. */
  predicate AllTrimmable(s: string) {
    forall i :: 0 <= i < |s| ==> IsTrimmable(s[i])
  }

  /** `s` neither starts nor ends with a trimmable character. */
  predicate Trimmed(s: string) {
    s == [] || (!IsTrimmable(s[0]) && !IsTrimmable(s[|s| - 1]))
  }

  /** `String.prototype.trim`: the stretch of `s` left after every leading and every trailing
      trimmable character is removed. */
  function Trim(s: string): (r: string)
    ensures Trimmed(r)
  {
    var t := TrimStart(s);
    var r := TrimEnd(t);
    TrimEndIsPrefix(t);
    assert r != [] ==> r[0] == t[0];
    r
  }

  /** What `Trim` keeps is one contiguous stretch of `s`, and everything outside it is trimmable. */
  lemma {:induction false} TrimIsStretch(s: string)
    ensures exists a, b ::
      0 <= a <= b <= |s| && Trim(s) == s[a..b] && AllTrimmable(s[..a]) && AllTrimmable(s[b..])
  {
    var t := TrimStart(s);
    var r := TrimEnd(t);
    TrimStartIsSuffix(s);
    TrimEndIsPrefix(t);
    assert r == Trim(s);
    var a := |s| - |t|;
    var b := a + |r|;
    assert t == s[a..] && r == t[..|r|];
    assert r == s[a..b];
    assert AllTrimmable(s[..a]);
    assert AllTrimmable(s[b..]) by {
      forall i | 0 <= i < |s| - b ensures IsTrimmable(s[b..][i]) {
        assert s[b..][i] == t[|r| + i];
      }
    }
  }

  /** Lower-casing of one character, restricted to the ASCII letters. */
  function LowerChar(c: char): char {
    if IsUpperAscii(c) then (c as int + ('a' as int - 'A' as int)) as char else c
  }

  predicate IsUpperAscii(c: char) {
    'A' <= c <= 'Z'
  }

  /** `String.prototype.toLowerCase` on the ASCII letters; other characters are kept. */
  function ToLower(s: string): (r: string)
    ensures |r| == |s|
    ensures forall i :: 0 <= i < |s| ==> !IsUpperAscii(r[i])
    ensures forall i :: 0 <= i < |s| ==> !IsUpperAscii(s[i]) ==> r[i] == s[i]
    ensures forall i :: 0 <= i < |s| ==> IsUpperAscii(s[i]) ==> r[i] as int == s[i] as int + 32
  {
    seq(|s|, i requires 0 <= i < |s| => LowerChar(s[i]))
  }

  /** The normal form answers are compared in: `a.trim().toLowerCase()`. */
  function Normalize(s: string): string {
    ToLower(Trim(s))
  }

  /** A normal form is no longer than the answer, has no padding left at either end and no
      upper-case ASCII letter. */
  lemma {:induction false} NormalizeForm(s: string)
    ensures |Normalize(s)| <= |s|
    ensures Trimmed(Normalize(s))
    ensures forall i :: 0 <= i < |Normalize(s)| ==> !IsUpperAscii(Normalize(s)[i])
  {
    var t := Trim(s);
    var r := ToLower(t);
    assert r != [] ==> r[0] == LowerChar(t[0]) && r[|r| - 1] == LowerChar(t[|t| - 1]);
  }

  /** Trimming removes nothing from a string that neither starts nor ends with a trimmable character. */
  lemma {:induction false} TrimKeepsTrimmed(s: string)
    requires Trimmed(s)
    ensures Trim(s) == s
  {
  }

  /** Normalising twice is normalising once: a normalised answer is its own normal form. */
  lemma {:induction false} NormalizeIdempotent(s: string)
    ensures Normalize(Normalize(s)) == Normalize(s)
  {
    var t := Trim(s);
    var n := ToLower(t);
    assert n != [] ==> n[0] == LowerChar(t[0]) && n[|n| - 1] == LowerChar(t[|t| - 1]);
    TrimKeepsTrimmed(n);
    assert ToLower(n) == n;
  }

  /** Every recorded answer, normalised, keyed by the player id that submitted it. */
  function NormalizedAnswers(answers: map<string, string>): (m: map<string, string>)
    ensures m.Keys == answers.Keys
    ensures forall k :: k in m ==> m[k] == Normalize(answers[k])
  {
    map k | k in answers :: Normalize(answers[k])
  }

  /** The match test as written: `new Set(normalised).size === 1 && normalised.length > 0`. */
  predicate IsMatch(answers: map<string, string>)
    ensures IsMatch(answers) ==> answers != map[]
  {
    |NormalizedAnswers(answers).Values| == 1 && |answers| > 0
  }

  /** All values of a map agree. */
  predicate Unanimous(m: map<string, string>) {
    forall k1, k2 :: k1 in m && k2 in m ==> m[k1] == m[k2]
  }

  /** A non-empty map has exactly one distinct value precisely when its values all agree. */
  lemma {:induction false} OneValueIsUnanimous(m: map<string, string>)
    requires m != map[]
    ensures |m.Values| == 1 <==> Unanimous(m)
  {
    var k0 :| k0 in m;
    assert m[k0] in m.Values;
    if |m.Values| == 1 {
      assert |m.Values - {m[k0]}| == 0;
      assert m.Values == {m[k0]};
      forall k | k in m ensures m[k] == m[k0] {
        assert m[k] in m.Values;
      }
    }
    if Unanimous(m) {
      assert m.Values == {m[k0]};
    }
  }

  /** A match is exactly unanimity over a non-empty set of answers: some answer exists and
      every two answers are equal once normalised. */
  lemma {:induction false} MatchIsUnanimity(answers: map<string, string>)
    ensures IsMatch(answers) <==>
      (answers != map[] &&
       forall k1, k2 :: k1 in answers && k2 in answers ==> Normalize(answers[k1]) == Normalize(answers[k2]))
  {
    var m := NormalizedAnswers(answers);
    if answers != map[] {
      assert m != map[];
      OneValueIsUnanimous(m);
    } else {
      assert |answers| == 0;
    }
  }

  /** No answers never make a match: `IsMatch`'s own contract at the empty map, kept as the
      statement of the length guard. */
  lemma NoAnswersNoMatch()
    ensures !IsMatch(map[])
  {
  }

  /** A map with exactly two keys has one distinct value precisely when both keys agree. */
  lemma {:induction false} PairValues(n: map<string, string>, a: string, b: string)
    requires a != b && n.Keys == {a, b}
    ensures |n.Values| == 1 <==> n[a] == n[b]
  {
    assert n[a] in n.Values && n[b] in n.Values;
    forall v | v in n.Values ensures v == n[a] || v == n[b] {
      var k :| k in n && n[k] == v;
    }
    if n[a] == n[b] {
      assert n.Values == {n[a]};
    } else {
      assert n.Values == {n[a], n[b]};
    }
  }

  /** With exactly two answers, the round is a match when their normal forms agree. */
  lemma {:induction false} TwoAnswersMatch(m: map<string, string>, a: string, b: string)
    requires a != b && m.Keys == {a, b}
    ensures IsMatch(m) <==> Normalize(m[a]) == Normalize(m[b])
  {
    var n := NormalizedAnswers(m);
    PairValues(n, a, b);
    assert |m| > 0 by { assert a in m; }
  }

  /** Two answers match when their normal forms agree. */
  lemma {:induction false} PairMatch(a: string, b: string, x: string, y: string)
    requires a != b
    ensures IsMatch(map[a := x, b := y]) <==> Normalize(x) == Normalize(y)
  {
    var m := map[a := x, b := y];
    assert m.Keys == {a, b};
    assert m[a] == x && m[b] == y;
    TwoAnswersMatch(m, a, b);
  }

  /** Leading trimmable characters in front of a string that does not start with one are all
      that `TrimStart` removes. */
  lemma {:induction false} TrimStartDropsPadding(p: string, t: string)
    requires AllTrimmable(p)
    requires t == [] || !IsTrimmable(t[0])
    ensures TrimStart(p + t) == t
    decreases |p|
  {
    if p == [] {
      assert p + t == t;
    } else {
      assert (p + t)[0] == p[0];
      assert (p + t)[1..] == p[1..] + t;
      TrimStartDropsPadding(p[1..], t);
    }
  }

  /** Trailing trimmable characters behind a string that does not end with one are all that
      `TrimEnd` removes. */
  lemma {:induction false} TrimEndDropsPadding(t: string, q: string)
    requires AllTrimmable(q)
    requires t == [] || !IsTrimmable(t[|t| - 1])
    ensures TrimEnd(t + q) == t
    decreases |q|
  {
    if q == [] {
      assert t + q == t;
    } else {
      var n := |t + q|;
      assert (t + q)[n - 1] == q[|q| - 1];
      assert (t + q)[..n - 1] == t + q[..|q| - 1];
      TrimEndDropsPadding(t, q[..|q| - 1]);
    }
  }

  /** Trimming a trimmed string wrapped in trimmable padding gives back the string. */
  lemma {:induction false} TrimDropsPadding(p: string, c: string, q: string)
    requires AllTrimmable(p) && AllTrimmable(q) && Trimmed(c)
    ensures Trim(p + c + q) == c
  {
    if c == [] {
      assert p + c + q == p + q;
      assert AllTrimmable(p + q) by {
        forall i | 0 <= i < |p + q| ensures IsTrimmable((p + q)[i]) {
          if i >= |p| { assert (p + q)[i] == q[i - |p|]; }
        }
      }
      TrimStartDropsPadding(p + q, []);
      assert p + q + [] == p + q;
    } else {
      assert p + c + q == p + (c + q);
      assert (c + q)[0] == c[0];
      TrimStartDropsPadding(p, c + q);
      TrimEndDropsPadding(c, q);
    }
  }

  /** `a` and `b` differ at most in the case of ASCII letters. */
  predicate SameUpToCase(a: string, b: string) {
    |a| == |b| && forall i :: 0 <= i < |a| ==> LowerChar(a[i]) == LowerChar(b[i])
  }

  /** Two answers that differ only in the case of ASCII letters and in the trimmable characters
      around them have the same normal form. */
  lemma {:induction false} NormalizeIgnoresCaseAndPadding(p1: string, c1: string, q1: string,
                                                          p2: string, c2: string, q2: string)
    requires AllTrimmable(p1) && AllTrimmable(q1) && AllTrimmable(p2) && AllTrimmable(q2)
    requires Trimmed(c1) && Trimmed(c2) && SameUpToCase(c1, c2)
    ensures Normalize(p1 + c1 + q1) == Normalize(p2 + c2 + q2)
  {
    TrimDropsPadding(p1, c1, q1);
    TrimDropsPadding(p2, c2, q2);
    assert ToLower(c1) == ToLower(c2);
  }

  /** Hence two players whose answers differ only in ASCII case and surrounding padding score
      the round. */
  lemma {:induction false} CaseAndPaddingVariantsMatch(a: string, b: string,
                                                       p1: string, c1: string, q1: string,
                                                       p2: string, c2: string, q2: string)
    requires a != b
    requires AllTrimmable(p1) && AllTrimmable(q1) && AllTrimmable(p2) && AllTrimmable(q2)
    requires Trimmed(c1) && Trimmed(c2) && SameUpToCase(c1, c2)
    ensures IsMatch(map[a := p1 + c1 + q1, b := p2 + c2 + q2])
  {
    NormalizeIgnoresCaseAndPadding(p1, c1, q1, p2, c2, q2);
    PairMatch(a, b, p1 + c1 + q1, p2 + c2 + q2);
  }

  /** The normal form of an answer without padding is its lower-cased form. */
  lemma {:induction false} NormalizeTrimmed(c: string)
    requires Trimmed(c)
    ensures Normalize(c) == ToLower(c)
  {
    TrimKeepsTrimmed(c);
  }

  lemma NormalizeApple()
    ensures Normalize("Apple") == "apple"
  {
    NormalizeTrimmed("Apple");
    assert ToLower("Apple") == "apple";
  }

  lemma NormalizePaddedApple()
    ensures Normalize(" apple ") == "apple"
  {
    assert " apple " == " " + "apple" + " ";
    TrimDropsPadding(" ", "apple", " ");
    assert ToLower("apple") == "apple";
  }

  lemma NormalizeOrange()
    ensures Normalize("Orange") == "orange"
  {
    NormalizeTrimmed("Orange");
    assert ToLower("Orange") == "orange";
  }

  lemma NormalizeLowerApple()
    ensures Normalize("apple") == "apple"
  {
    NormalizeTrimmed("apple");
    assert ToLower("apple") == "apple";
  }

  /** Two players answering "Apple" and "apple", or "Apple" and " apple ", match; "Apple" and
      "Orange" do not. */
  lemma {:induction false} CaseInsensitiveMatch(a: string, b: string)
    requires a != b
    ensures IsMatch(map[a := "Apple", b := "apple"])
    ensures IsMatch(map[a := "Apple", b := " apple "])
    ensures !IsMatch(map[a := "Apple", b := "Orange"])
  {
    NormalizeApple();
    NormalizePaddedApple();
    NormalizeOrange();
    NormalizeLowerApple();
    PairMatch(a, b, "Apple", "apple");
    PairMatch(a, b, "Apple", " apple ");
    PairMatch(a, b, "Apple", "Orange");
    assert "apple" != "orange" by { assert "apple"[0] != "orange"[0]; }
  }
}

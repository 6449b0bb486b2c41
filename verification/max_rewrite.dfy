/** The second half of `MsCeTestManager.ReplaceVarchar`: the regular expression
    `\(max\)`, matched without regard to case, replaced by `(2000)`
    throughout.

    `ScanMax` is the engine's left-to-right walk: at each position it either
    matches the five characters `(max)` (and resumes after them) or copies one
    character. Because the token begins with `(` and no other character of it
    is `(`, two tokens can never overlap, and text can be cut in front of any
    `(` and rewritten piece by piece (`ScanMaxConcat`). */
module MaxRewrite {
  import opened Strings

  /** The parenthesised `max`, in any mix of upper and lower case, starts at
      position `p` of `s`. Case is folded for ASCII letters only. */
  predicate IsMaxAt(s: string, p: int) {
    && 0 <= p && p + 5 <= |s|
    && s[p] == '('
    && (s[p + 1] == 'm' || s[p + 1] == 'M')
    && (s[p + 2] == 'a' || s[p + 2] == 'A')
    && (s[p + 3] == 'x' || s[p + 3] == 'X')
    && s[p + 4] == ')'
  }

  /** `\(max\)` matches somewhere in `s`. */
  predicate HasMaxToken(s: string) {
    exists p :: 0 <= p < |s| && IsMaxAt(s, p)
  }

  /** `s` is exactly one token. */
  predicate IsMaxToken(s: string) {
    |s| == 5 && IsMaxAt(s, 0)
  }

  const Max2000: string := "(2000)"

  /** The replacing walk; every token makes the text one character longer. */
  function ScanMax(s: string): (r: string)
    ensures |r| >= |s|
    decreases |s|
  {
    if |s| == 0 then ""
    else if IsMaxAt(s, 0) then Max2000 + ScanMax(s[5..])
    else [s[0]] + ScanMax(s[1..])
  }

  /** `Regex.Replace(sql, @"\(max\)", "(2000)", RegexOptions.IgnoreCase)`. */
  function ReplaceMax(sql: string): string {
    ScanMax(sql)
  }

  // ---------------------------------------------------------------------
  // Tokens seen one character at a time.
  // ---------------------------------------------------------------------

  /** A token one character into `[c] + s` is a token in `s`. */
  lemma IsMaxAtShift(c: char, s: string, p: int)
    requires 0 <= p
    ensures IsMaxAt([c] + s, p + 1) <==> IsMaxAt(s, p)
  {
    var t := [c] + s;
    if p + 5 <= |s| {
      assert t[p + 1] == s[p] && t[p + 2] == s[p + 1] && t[p + 3] == s[p + 2];
      assert t[p + 4] == s[p + 3] && t[p + 5] == s[p + 4];
    }
  }

  /** A token in `[c] + s` is either at its start or a token in `s`. */
  lemma HasMaxTokenCons(c: char, s: string)
    ensures HasMaxToken([c] + s) <==> IsMaxAt([c] + s, 0) || HasMaxToken(s)
  {
    if HasMaxToken([c] + s) && !IsMaxAt([c] + s, 0) {
      var p :| 0 <= p < |[c] + s| && IsMaxAt([c] + s, p);
      assert p != 0;
      IsMaxAtShift(c, s, p - 1);
    }
    if HasMaxToken(s) {
      var p :| 0 <= p < |s| && IsMaxAt(s, p);
      IsMaxAtShift(c, s, p);
    }
  }

  // ---------------------------------------------------------------------
  // What the walk does.
  // ---------------------------------------------------------------------

  /** The walk never changes the first character: a token starts with `(`,
      and so does its replacement. */
  lemma ScanMaxHead(s: string)
    requires |s| > 0
    ensures |ScanMax(s)| > 0 && ScanMax(s)[0] == s[0]
  {
  }

  /** Where there is a token the text grows. */
  lemma {:induction false} ScanMaxGrowsOnToken(s: string)
    requires HasMaxToken(s)
    ensures |ScanMax(s)| > |s|
    decreases |s|
  {
    if !IsMaxAt(s, 0) {
      assert s == [s[0]] + s[1..];
      HasMaxTokenCons(s[0], s[1..]);
      ScanMaxGrowsOnToken(s[1..]);
    }
  }

  /** The text is left alone exactly when `\(max\)` does not match it. */
  lemma {:induction false} ScanMaxUnchangedIffNoToken(s: string)
    ensures ScanMax(s) == s <==> !HasMaxToken(s)
    decreases |s|
  {
    if HasMaxToken(s) {
      ScanMaxGrowsOnToken(s);
    } else if |s| > 0 {
      assert s == [s[0]] + s[1..];
      HasMaxTokenCons(s[0], s[1..]);
      ScanMaxUnchangedIffNoToken(s[1..]);
    }
  }

  /** No character of `w` is an opening parenthesis. */
  predicate NoParen(w: string) {
    forall i :: 0 <= i < |w| ==> w[i] != '('
  }

  /** Output without `(` is copied input: a prefix of the output free of `(`
      is the same prefix of the input, and the walk resumes right after it. */
  lemma {:induction false} ScanMaxCopiesPrefix(u: string, k: nat)
    requires k <= |ScanMax(u)| && NoParen(ScanMax(u)[..k])
    ensures k <= |u| && u[..k] == ScanMax(u)[..k]
    ensures ScanMax(u) == u[..k] + ScanMax(u[k..])
    decreases k
  {
    if k > 0 {
      ScanMaxPrefixPeel(u, k);
      ScanMaxCopiesPrefix(u[1..], k - 1);
      PrefixJoin(u, ScanMax(u), ScanMax(u[1..]), ScanMax(u[1..][k - 1..]), k);
    }
  }

  /** A first output character other than `(` was copied, and the rest of
      the prefix comes from the rest of the input. */
  lemma ScanMaxPrefixPeel(u: string, k: nat)
    requires 0 < k <= |ScanMax(u)| && NoParen(ScanMax(u)[..k])
    ensures |u| > 0 && ScanMax(u) == [u[0]] + ScanMax(u[1..])
    ensures k - 1 <= |ScanMax(u[1..])| && NoParen(ScanMax(u[1..])[..k - 1])
  {
    assert ScanMax(u)[..k][0] != '(';
    assert !IsMaxAt(u, 0);
    assert ScanMax(u)[1..][..k - 1] == ScanMax(u)[..k][1..];
  }

  /** A token at the start of a copied character was already one in the
      input. */
  lemma CopiedTokenWasInput(s: string)
    requires |s| > 0
    ensures IsMaxAt([s[0]] + ScanMax(s[1..]), 0) ==> IsMaxAt(s, 0)
  {
    var t := ScanMax(s[1..]);
    var r := [s[0]] + t;
    if IsMaxAt(r, 0) {
      assert t[..4] == r[1..5];
      assert NoParen(t[..4]);
      ScanMaxCopiesPrefix(s[1..], 4);
      assert s[..5] == [s[0]] + s[1..][..4];
    }
  }

  /** `(2000)` holds no token, and a token can start in it only at its
      beginning, where `2` is not `m`. */
  lemma NoTokenStartsInMax2000(t: string)
    ensures forall p :: 0 <= p < |Max2000| ==> !IsMaxAt(Max2000 + t, p)
  {
    var r := Max2000 + t;
    forall p | 0 <= p < |Max2000|
      ensures !IsMaxAt(r, p)
    {
      assert r[p] == Max2000[p];
      if p == 0 { assert r[1] == '2'; }
    }
  }

  /** A token in `(2000)` followed by `t` is a token in `t`. */
  lemma HasMaxTokenAfterMax2000(t: string)
    ensures HasMaxToken(Max2000 + t) <==> HasMaxToken(t)
  {
    var r := Max2000 + t;
    NoTokenStartsInMax2000(t);
    if HasMaxToken(r) {
      var p :| 0 <= p < |r| && IsMaxAt(r, p);
      assert p >= 6;
      assert r[p..p + 5] == t[p - 6..p - 1];
      assert IsMaxAt(t, p - 6);
    }
    if HasMaxToken(t) {
      var q :| 0 <= q < |t| && IsMaxAt(t, q);
      assert r[q + 6..q + 11] == t[q..q + 5];
      assert IsMaxAt(r, q + 6);
    }
  }

  /** Nothing the walk writes is a `(max)` token. */
  lemma {:induction false} ScanMaxLeavesNoToken(s: string)
    ensures !HasMaxToken(ScanMax(s))
    decreases |s|
  {
    if |s| == 0 {
    } else if IsMaxAt(s, 0) {
      ScanMaxLeavesNoToken(s[5..]);
      HasMaxTokenAfterMax2000(ScanMax(s[5..]));
    } else {
      var t := ScanMax(s[1..]);
      ScanMaxLeavesNoToken(s[1..]);
      HasMaxTokenCons(s[0], t);
      CopiedTokenWasInput(s);
    }
  }

  // ---------------------------------------------------------------------
  // Tokens are rewritten independently of each other.
  // ---------------------------------------------------------------------

  /** No token can start in `x` and run on into a `(` that follows it. */
  lemma NoTokenAcrossParen(x: string, z: string)
    requires |x| > 0 && |z| > 0 && z[0] == '('
    ensures IsMaxAt(x + z, 0) <==> IsMaxAt(x, 0)
  {
    var s := x + z;
    if |x| < 5 {
      if |s| >= 5 {
        assert s[|x|] == '(';
      }
    } else {
      assert s[..5] == x[..5];
    }
  }

  /** Text can be cut in front of any `(` and rewritten piece by piece. */
  lemma {:induction false} ScanMaxConcat(x: string, z: string)
    requires |z| > 0 && z[0] == '('
    ensures ScanMax(x + z) == ScanMax(x) + ScanMax(z)
    decreases |x|
  {
    if |x| == 0 {
      assert x + z == z;
    } else if IsMaxAt(x, 0) {
      ScanMaxConcat(x[5..], z);
      ScanMaxConcatTokenHead(x, z);
      ScanMaxUnfoldsToken(x);
      RegroupPair(ScanMax(x + z), ScanMax(x[5..] + z), ScanMax(x[5..]), ScanMax(z), Max2000, ScanMax(x));
    } else {
      ScanMaxConcat(x[1..], z);
      ScanMaxConcatCopyHead(x, z);
      ScanMaxUnfoldsCopy(x);
      RegroupPair(ScanMax(x + z), ScanMax(x[1..] + z), ScanMax(x[1..]), ScanMax(z), [x[0]], ScanMax(x));
    }
  }

  /** A token at the start of `x` is replaced in `x + z` too. */
  lemma ScanMaxConcatTokenHead(x: string, z: string)
    requires |z| > 0 && z[0] == '(' && IsMaxAt(x, 0)
    ensures ScanMax(x + z) == Max2000 + ScanMax(x[5..] + z)
  {
    NoTokenAcrossParen(x, z);
    ScanMaxUnfoldsToken(x + z);
    assert (x + z)[5..] == x[5..] + z;
  }

  /** The first character of `x` is copied in `x + z` too. */
  lemma ScanMaxConcatCopyHead(x: string, z: string)
    requires |x| > 0 && |z| > 0 && z[0] == '(' && !IsMaxAt(x, 0)
    ensures ScanMax(x + z) == [x[0]] + ScanMax(x[1..] + z)
  {
    NoTokenAcrossParen(x, z);
    ScanMaxUnfoldsCopy(x + z);
    assert (x + z)[0] == x[0];
    assert (x + z)[1..] == x[1..] + z;
  }

  /** The walk at a token. */
  lemma ScanMaxUnfoldsToken(s: string)
    requires IsMaxAt(s, 0)
    ensures ScanMax(s) == Max2000 + ScanMax(s[5..])
  {
  }

  /** The walk where there is no token. */
  lemma ScanMaxUnfoldsCopy(s: string)
    requires |s| > 0 && !IsMaxAt(s, 0)
    ensures ScanMax(s) == [s[0]] + ScanMax(s[1..])
  {
  }

  /** Every `(max)` token, in any case, becomes `(2000)`, and the text on either
      side is rewritten on its own. */
  lemma ReplacesEveryMaxToken(x: string, m: string, y: string)
    requires IsMaxToken(m)
    ensures ReplaceMax(x + m + y) == ReplaceMax(x) + Max2000 + ReplaceMax(y)
  {
    var z := m + y;
    assert x + m + y == x + z;
    assert z[0] == '(';
    ScanMaxConcat(x, z);
    assert IsMaxAt(z, 0);
    assert z[5..] == y;
  }

  /** `(MAX)`, `(Max)` and `(max)` are all replaced. */
  lemma ReplacesMaxInAnyCase(x: string, y: string)
    ensures ReplaceMax(x + "(MAX)" + y) == ReplaceMax(x) + "(2000)" + ReplaceMax(y)
    ensures ReplaceMax(x + "(Max)" + y) == ReplaceMax(x) + "(2000)" + ReplaceMax(y)
    ensures ReplaceMax(x + "(max)" + y) == ReplaceMax(x) + "(2000)" + ReplaceMax(y)
  {
    ReplacesEveryMaxToken(x, "(MAX)", y);
    ReplacesEveryMaxToken(x, "(Max)", y);
    ReplacesEveryMaxToken(x, "(max)", y);
  }
}

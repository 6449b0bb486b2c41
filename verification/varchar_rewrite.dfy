/** The first half of `MsCeTestManager.ReplaceVarchar`: the regular expression
    `\bvarchar\b` (case-sensitive) replaced by `nvarchar` throughout.

    `Scan` is the regular-expression engine's left-to-right walk written out
    by hand: at each position it either matches (and resumes after the
    match) or copies one character. The word boundary `\b` looks at the
    character before the current position in the ORIGINAL input, which
    `Scan` carries as `afterWord`.

    `RewriteWords` is an independent reference: cut the text into maximal
    runs of word characters and single other characters, and replace every
    run that is exactly `varchar`. */
module VarcharRewrite {
  import opened Strings

  /** A word character of `\w`, restricted to ASCII: letters, digits and `_`. */
  predicate IsWordChar(c: char) {
    ('a' <= c <= 'z') || ('A' <= c <= 'Z') || ('0' <= c <= '9') || c == '_'
  }

  /** All characters of `w` are word characters. */
  predicate AllWord(w: string) {
    forall i :: 0 <= i < |w| ==> IsWordChar(w[i])
  }

  const Varchar: string := "varchar"
  const NVarchar: string := "nvarchar"

  /** The seven characters of `s` from position `p` spell `varchar`. */
  predicate SpellsVarchar(s: string, p: int) {
    && 0 <= p && p + 7 <= |s|
    && s[p] == 'v' && s[p + 1] == 'a' && s[p + 2] == 'r' && s[p + 3] == 'c'
    && s[p + 4] == 'h' && s[p + 5] == 'a' && s[p + 6] == 'r'
  }

  /** `\bvarchar\b` matches `s` at position `p`; `afterWord` tells whether the
      character just before `s` (seen when `p` is 0) is a word character. */
  predicate MatchAt(s: string, p: int, afterWord: bool) {
    && SpellsVarchar(s, p)
    && !(if p == 0 then afterWord else IsWordChar(s[p - 1]))
    && (p + 7 == |s| || !IsWordChar(s[p + 7]))
  }

  /** `\bvarchar\b` matches somewhere in `s`. */
  predicate HasMatch(s: string, afterWord: bool) {
    exists p :: 0 <= p < |s| && MatchAt(s, p, afterWord)
  }

  /** A standalone, lower-case `varchar` occurs in the text. */
  predicate HasStandaloneVarchar(s: string) {
    HasMatch(s, false)
  }

  /** The replacing walk; every match makes the text one character longer. */
  function Scan(s: string, afterWord: bool): (r: string)
    ensures |r| >= |s|
    decreases |s|
  {
    if |s| == 0 then ""
    else if MatchAt(s, 0, afterWord) then NVarchar + Scan(s[7..], true)
    else [s[0]] + Scan(s[1..], IsWordChar(s[0]))
  }

  /** `Regex.Replace(sql, @"\bvarchar\b", "nvarchar")`. */
  function ReplaceVarcharWords(sql: string): string {
    Scan(sql, false)
  }

  // ---------------------------------------------------------------------
  // Matches seen one character at a time.
  // ---------------------------------------------------------------------

  /** A match one character into `[c] + s` is a match in `s` after `c`. */
  lemma MatchAtShift(c: char, s: string, p: int, afterWord: bool)
    requires 0 <= p
    ensures MatchAt([c] + s, p + 1, afterWord) <==> MatchAt(s, p, IsWordChar(c))
  {
    var t := [c] + s;
    if p + 7 <= |s| {
      if p > 0 { assert t[p] == s[p - 1]; }
      if p + 7 < |s| { assert t[p + 8] == s[p + 7]; }
    }
  }

  /** A match in `[c] + s` is either at its start or a match in `s` after `c`. */
  lemma HasMatchCons(c: char, s: string, afterWord: bool)
    ensures HasMatch([c] + s, afterWord) <==> MatchAt([c] + s, 0, afterWord) || HasMatch(s, IsWordChar(c))
  {
    if HasMatch([c] + s, afterWord) && !MatchAt([c] + s, 0, afterWord) {
      var p :| 0 <= p < |[c] + s| && MatchAt([c] + s, p, afterWord);
      assert p != 0;
      MatchAtShift(c, s, p - 1, afterWord);
    }
    if HasMatch(s, IsWordChar(c)) {
      var p :| 0 <= p < |s| && MatchAt(s, p, IsWordChar(c));
      MatchAtShift(c, s, p, afterWord);
    }
  }

  /** A match `|x|` characters into `x + t` is a match in `t` after `x`. */
  lemma MatchAtShiftN(x: string, t: string, p: int, afterWord: bool)
    requires |x| > 0 && 0 <= p
    ensures MatchAt(x + t, p + |x|, afterWord) <==> MatchAt(t, p, IsWordChar(x[|x| - 1]))
  {
    var s := x + t;
    var q := p + |x|;
    if p + 7 <= |t| {
      if p > 0 { assert s[q - 1] == t[p - 1]; } else { assert s[q - 1] == x[|x| - 1]; }
      if p + 7 < |t| { assert s[q + 7] == t[p + 7]; }
    }
  }

  /** A match in `x + t` starts inside `x` or is a match in `t` after `x`. */
  lemma HasMatchAppend(x: string, t: string, afterWord: bool)
    requires |x| > 0
    ensures HasMatch(x + t, afterWord) <==>
              (exists p :: 0 <= p < |x| && MatchAt(x + t, p, afterWord)) || HasMatch(t, IsWordChar(x[|x| - 1]))
  {
    if HasMatch(x + t, afterWord) {
      var p :| 0 <= p < |x + t| && MatchAt(x + t, p, afterWord);
      if p >= |x| {
        MatchAtShiftN(x, t, p - |x|, afterWord);
      }
    }
    if HasMatch(t, IsWordChar(x[|x| - 1])) {
      var q :| 0 <= q < |t| && MatchAt(t, q, IsWordChar(x[|x| - 1]));
      MatchAtShiftN(x, t, q, afterWord);
    }
  }

  // ---------------------------------------------------------------------
  // What the walk does.
  // ---------------------------------------------------------------------

  /** Where there is a match the text grows. */
  lemma {:induction false} ScanGrowsOnMatch(s: string, afterWord: bool)
    requires HasMatch(s, afterWord)
    ensures |Scan(s, afterWord)| > |s|
    decreases |s|
  {
    if !MatchAt(s, 0, afterWord) {
      assert s == [s[0]] + s[1..];
      HasMatchCons(s[0], s[1..], afterWord);
      ScanGrowsOnMatch(s[1..], IsWordChar(s[0]));
    }
  }

  /** The text is left alone exactly when `\bvarchar\b` does not match it. */
  lemma {:induction false} ScanUnchangedIffNoMatch(s: string, afterWord: bool)
    ensures Scan(s, afterWord) == s <==> !HasMatch(s, afterWord)
    decreases |s|
  {
    if HasMatch(s, afterWord) {
      ScanGrowsOnMatch(s, afterWord);
    } else if |s| > 0 {
      assert s == [s[0]] + s[1..];
      HasMatchCons(s[0], s[1..], afterWord);
      ScanUnchangedIffNoMatch(s[1..], IsWordChar(s[0]));
    }
  }

  /** After a word character the walk copies word characters as they are: a
      prefix of the output made of word characters is a prefix of the input. */
  lemma {:induction false} ScanCopiesWordPrefix(u: string, k: nat)
    requires k <= |Scan(u, true)| && AllWord(Scan(u, true)[..k])
    ensures k <= |u| && u[..k] == Scan(u, true)[..k]
    ensures Scan(u, true) == u[..k] + Scan(u[k..], true)
    decreases k
  {
    if k > 0 {
      ScanWordPrefixPeel(u, k);
      ScanCopiesWordPrefix(u[1..], k - 1);
      PrefixJoin(u, Scan(u, true), Scan(u[1..], true), Scan(u[1..][k - 1..], true), k);
    }
  }

  /** A word character at the front of the output after a word character was
      copied, and the rest of the prefix comes from the rest of the input. */
  lemma ScanWordPrefixPeel(u: string, k: nat)
    requires 0 < k <= |Scan(u, true)| && AllWord(Scan(u, true)[..k])
    ensures |u| > 0 && IsWordChar(u[0]) && Scan(u, true) == [u[0]] + Scan(u[1..], true)
    ensures k - 1 <= |Scan(u[1..], true)| && AllWord(Scan(u[1..], true)[..k - 1])
  {
    assert !MatchAt(u, 0, true);
    assert IsWordChar(Scan(u, true)[..k][0]);
    assert Scan(u, true)[1..][..k - 1] == Scan(u, true)[..k][1..];
  }

  /** Nothing the walk writes is a standalone `varchar`. */
  lemma {:induction false} ScanLeavesNoMatch(s: string, afterWord: bool)
    ensures !HasMatch(Scan(s, afterWord), afterWord)
    decreases |s|
  {
    var r := Scan(s, afterWord);
    if |s| == 0 {
    } else if MatchAt(s, 0, afterWord) {
      var t := Scan(s[7..], true);
      ScanLeavesNoMatch(s[7..], true);
      assert r == NVarchar + t;
      HasMatchAppend(NVarchar, t, afterWord);
      forall p | 0 <= p < 8 ensures !MatchAt(r, p, afterWord) {
        assert r[p] == NVarchar[p];
        if p == 1 { assert r[0] == 'n'; }
      }
    } else {
      var t := Scan(s[1..], IsWordChar(s[0]));
      ScanLeavesNoMatch(s[1..], IsWordChar(s[0]));
      assert r == [s[0]] + t;
      HasMatchCons(s[0], t, afterWord);
      CopiedMatchWasInput(s, afterWord);
    }
  }

  /** A standalone `varchar` at the start of a copied character was already
      one in the input. */
  lemma CopiedMatchWasInput(s: string, afterWord: bool)
    requires |s| > 0
    ensures MatchAt([s[0]] + Scan(s[1..], IsWordChar(s[0])), 0, afterWord) ==> MatchAt(s, 0, afterWord)
  {
    var t := Scan(s[1..], IsWordChar(s[0]));
    var r := [s[0]] + t;
    if MatchAt(r, 0, afterWord) {
      assert r[0] == 'v';
      assert t[..6] == r[1..7];
      assert AllWord(t[..6]);
      ScanCopiesWordPrefix(s[1..], 6);
      assert s[..7] == [s[0]] + s[1..][..6];
      if |t| > 6 {
        assert |s[1..][6..]| > 0;
        assert t[6] == Scan(s[1..][6..], true)[0] == s[1..][6];
      }
    }
  }

  // ---------------------------------------------------------------------
  // Words are rewritten independently of each other.
  // ---------------------------------------------------------------------

  /** After a word character, a run of word characters is copied. */
  lemma {:induction false} ScanCopiesWord(w: string)
    requires AllWord(w)
    ensures Scan(w, true) == w
    decreases |w|
  {
    if |w| > 0 {
      assert !MatchAt(w, 0, true);
      ScanCopiesWord(w[1..]);
    }
  }

  /** `varchar` is made of word characters. */
  lemma VarcharIsWord()
    ensures |Varchar| == 7 && AllWord(Varchar) && Varchar[0] == 'v'
  {
  }

  /** A match at the start of `x + [c] + y`, for a non-word `c`, lies inside `x`. */
  lemma MatchAtSplit(x: string, c: char, y: string, afterWord: bool)
    requires !IsWordChar(c)
    ensures MatchAt(x + [c] + y, 0, afterWord) <==> MatchAt(x, 0, afterWord)
  {
    var s := x + [c] + y;
    VarcharIsWord();
    if |x| < 7 {
      if |s| >= 7 {
        assert s[..7][|x|] == c;
      }
    } else {
      assert s[..7] == x[..7];
      if |x| > 7 { assert s[7] == x[7]; } else { assert s[7] == c; }
    }
  }

  /** A non-word character separates the walk into two independent walks. */
  lemma {:induction false} ScanSplit(x: string, c: char, y: string, afterWord: bool)
    requires !IsWordChar(c)
    ensures Scan(x + [c] + y, afterWord) == Scan(x, afterWord) + [c] + Scan(y, false)
    decreases |x|
  {
    if |x| == 0 {
      ScanSplitEmpty(c, y, afterWord);
    } else if MatchAt(x, 0, afterWord) {
      ScanSplit(x[7..], c, y, true);
      ScanSplitMatchStep(x, c, y, afterWord);
    } else {
      ScanSplit(x[1..], c, y, IsWordChar(x[0]));
      ScanSplitCopyStep(x, c, y, afterWord);
    }
  }

  /** `ScanSplit` with nothing before the non-word character. */
  lemma ScanSplitEmpty(c: char, y: string, afterWord: bool)
    requires !IsWordChar(c)
    ensures Scan([] + [c] + y, afterWord) == Scan([], afterWord) + [c] + Scan(y, false)
  {
    var s := [c] + y;
    assert [] + [c] + y == s;
    assert !MatchAt(s, 0, afterWord);
    assert s[1..] == y;
  }

  /** `ScanSplit` across a match at the start of `x`. */
  lemma ScanSplitMatchStep(x: string, c: char, y: string, afterWord: bool)
    requires !IsWordChar(c) && MatchAt(x, 0, afterWord)
    requires Scan(x[7..] + [c] + y, true) == Scan(x[7..], true) + [c] + Scan(y, false)
    ensures Scan(x + [c] + y, afterWord) == Scan(x, afterWord) + [c] + Scan(y, false)
  {
    ScanSplitMatchHead(x, c, y, afterWord);
    ScanUnfoldsMatch(x, afterWord);
    Regroup(Scan(x + [c] + y, afterWord), Scan(x[7..] + [c] + y, true), Scan(x[7..], true), Scan(y, false),
            NVarchar, [c], Scan(x, afterWord));
  }

  /** `ScanSplit` across a character copied from the start of `x`. */
  lemma ScanSplitCopyStep(x: string, c: char, y: string, afterWord: bool)
    requires !IsWordChar(c) && |x| > 0 && !MatchAt(x, 0, afterWord)
    requires Scan(x[1..] + [c] + y, IsWordChar(x[0])) == Scan(x[1..], IsWordChar(x[0])) + [c] + Scan(y, false)
    ensures Scan(x + [c] + y, afterWord) == Scan(x, afterWord) + [c] + Scan(y, false)
  {
    ScanSplitCopyHead(x, c, y, afterWord);
    ScanUnfoldsCopy(x, afterWord);
    Regroup(Scan(x + [c] + y, afterWord), Scan(x[1..] + [c] + y, IsWordChar(x[0])),
            Scan(x[1..], IsWordChar(x[0])), Scan(y, false), [x[0]], [c], Scan(x, afterWord));
  }

  /** A match at the start of `x` is replaced in `x + [c] + y` too. */
  lemma ScanSplitMatchHead(x: string, c: char, y: string, afterWord: bool)
    requires !IsWordChar(c) && MatchAt(x, 0, afterWord)
    ensures Scan(x + [c] + y, afterWord) == NVarchar + Scan(x[7..] + [c] + y, true)
  {
    var s := x + [c] + y;
    MatchAtSplit(x, c, y, afterWord);
    ScanUnfoldsMatch(s, afterWord);
    assert s[7..] == x[7..] + [c] + y;
  }

  /** The first character of `x` is copied in `x + [c] + y` too. */
  lemma ScanSplitCopyHead(x: string, c: char, y: string, afterWord: bool)
    requires !IsWordChar(c) && |x| > 0 && !MatchAt(x, 0, afterWord)
    ensures Scan(x + [c] + y, afterWord) == [x[0]] + Scan(x[1..] + [c] + y, IsWordChar(x[0]))
  {
    var s := x + [c] + y;
    MatchAtSplit(x, c, y, afterWord);
    ScanUnfoldsCopy(s, afterWord);
    assert s[0] == x[0];
    assert s[1..] == x[1..] + [c] + y;
  }

  /** `ScanSplit` at a position of a single text. */
  lemma ScanSplitAt(s: string, n: nat, afterWord: bool)
    requires n < |s| && !IsWordChar(s[n])
    ensures Scan(s, afterWord) == Scan(s[..n], afterWord) + [s[n]] + Scan(s[n + 1..], false)
  {
    SplitAround(s, n);
    ScanSplit(s[..n], s[n], s[n + 1..], afterWord);
  }

  /** The walk at a match. */
  lemma ScanUnfoldsMatch(s: string, afterWord: bool)
    requires MatchAt(s, 0, afterWord)
    ensures Scan(s, afterWord) == NVarchar + Scan(s[7..], true)
  {
  }

  /** The walk where there is no match. */
  lemma ScanUnfoldsCopy(s: string, afterWord: bool)
    requires |s| > 0 && !MatchAt(s, 0, afterWord)
    ensures Scan(s, afterWord) == [s[0]] + Scan(s[1..], IsWordChar(s[0]))
  {
  }

  /** A whole word matches exactly when it is `varchar`. */
  lemma MatchAtWord(w: string)
    requires AllWord(w)
    ensures MatchAt(w, 0, false) <==> w == Varchar
  {
    if |w| == 7 {
      assert w[..7] == w;
    } else if |w| > 7 {
      assert IsWordChar(w[7]);
    }
  }

  /** The word `varchar` alone becomes `nvarchar`. */
  lemma ScanVarchar()
    ensures Scan(Varchar, false) == NVarchar
  {
    VarcharIsWord();
    MatchAtWord(Varchar);
    assert Varchar[7..] == "";
  }

  /** Any other word alone is kept. */
  lemma ScanOtherWord(w: string)
    requires |w| > 0 && AllWord(w) && w != Varchar
    ensures Scan(w, false) == w
  {
    MatchAtWord(w);
    ScanUnfoldsCopy(w, false);
    ScanCopiesWordTail(w);
  }

  /** The rest of a word is copied after its first character. */
  lemma ScanCopiesWordTail(w: string)
    requires |w| > 0 && AllWord(w)
    ensures [w[0]] + Scan(w[1..], IsWordChar(w[0])) == w
  {
    assert AllWord(w[1..]);
    ScanCopiesWord(w[1..]);
    assert [w[0]] + w[1..] == w;
  }

  /** A whole word alone is replaced exactly when it is `varchar`. */
  lemma ScanWord(w: string)
    requires |w| > 0 && AllWord(w)
    ensures Scan(w, false) == RewriteWord(w)
  {
    if w == Varchar {
      ScanVarchar();
    } else {
      ScanOtherWord(w);
    }
  }

  /** The walk restarts after a non-word character. */
  lemma ScanConcatAfter(x: string, z: string)
    requires |x| > 0 && !IsWordChar(x[|x| - 1])
    ensures Scan(x + z, false) == Scan(x, false) + Scan(z, false)
  {
    var n := |x| - 1;
    ScanSplitAt(x + z, n, false);
    ScanSplitAt(x, n, false);
    assert (x + z)[..n] == x[..n] && (x + z)[n] == x[n];
    assert (x + z)[n + 1..] == z && x[n + 1..] == [];
  }

  /** The walk restarts at a non-word character. */
  lemma ScanConcatBefore(x: string, z: string)
    requires |z| > 0 && !IsWordChar(z[0])
    ensures Scan(x + z, false) == Scan(x, false) + Scan(z, false)
  {
    var c := z[0];
    assert x + z == x + [c] + z[1..];
    assert z == [] + [c] + z[1..];
    ScanSplit(x, c, z[1..], false);
    ScanSplit([], c, z[1..], false);
  }

  /** `x` ends at a word boundary: it is empty or ends with a non-word
      character. */
  predicate EndsAtBoundary(x: string) {
    |x| == 0 || !IsWordChar(x[|x| - 1])
  }

  /** `y` starts at a word boundary. */
  predicate StartsAtBoundary(y: string) {
    |y| == 0 || !IsWordChar(y[0])
  }

  /** A word followed by a boundary is rewritten on its own. */
  lemma ScanWordThenRest(w: string, y: string)
    requires StartsAtBoundary(y) && |w| > 0 && AllWord(w)
    ensures Scan(w + y, false) == Scan(w, false) + Scan(y, false)
  {
    if |y| > 0 {
      ScanConcatBefore(w, y);
    } else {
      assert w + y == w;
    }
  }

  /** Text after a boundary is rewritten on its own. */
  lemma ScanAfterBoundary(x: string, z: string)
    requires EndsAtBoundary(x)
    ensures Scan(x + z, false) == Scan(x, false) + Scan(z, false)
  {
    if |x| > 0 {
      ScanConcatAfter(x, z);
    } else {
      assert x + z == z;
    }
  }

  /** A whole word between boundaries is rewritten on its own. */
  lemma ScanWordInPlace(x: string, w: string, y: string)
    requires EndsAtBoundary(x) && StartsAtBoundary(y) && |w| > 0 && AllWord(w)
    ensures Scan(x + w + y, false) == Scan(x, false) + RewriteWord(w) + Scan(y, false)
  {
    ScanWordThenRest(w, y);
    ScanWord(w);
    Associate(x, w, y);
    ScanAfterBoundary(x, w + y);
    Associate(Scan(x, false), RewriteWord(w), Scan(y, false));
  }

  /** Every standalone `varchar` becomes `nvarchar`, and the text on either
      side is rewritten on its own. */
  lemma ReplacesStandaloneVarchar(x: string, y: string)
    requires EndsAtBoundary(x) && StartsAtBoundary(y)
    ensures ReplaceVarcharWords(x + Varchar + y) == ReplaceVarcharWords(x) + NVarchar + ReplaceVarcharWords(y)
  {
    VarcharIsWord();
    ScanWordInPlace(x, Varchar, y);
  }

  /** Any other whole word, such as `nvarchar`, `varchar2`, `my_varchar` or
      `VARCHAR`, is kept as it is. */
  lemma KeepsOtherWords(x: string, w: string, y: string)
    requires EndsAtBoundary(x) && StartsAtBoundary(y) && |w| > 0 && AllWord(w) && w != Varchar
    ensures ReplaceVarcharWords(x + w + y) == ReplaceVarcharWords(x) + w + ReplaceVarcharWords(y)
  {
    ScanWordInPlace(x, w, y);
  }

  /** The match is case-sensitive: other spellings of `varchar` are kept. */
  lemma KeepsOtherSpellings(x: string, y: string)
    requires EndsAtBoundary(x) && StartsAtBoundary(y)
    ensures ReplaceVarcharWords(x + "VARCHAR" + y) == ReplaceVarcharWords(x) + "VARCHAR" + ReplaceVarcharWords(y)
    ensures ReplaceVarcharWords(x + "VarChar" + y) == ReplaceVarcharWords(x) + "VarChar" + ReplaceVarcharWords(y)
  {
    KeepsOtherWords(x, "VARCHAR", y);
    KeepsOtherWords(x, "VarChar", y);
  }

  /** The match needs a boundary on both sides: longer words that contain
      `varchar` are kept. */
  lemma KeepsLongerWords(x: string, y: string)
    requires EndsAtBoundary(x) && StartsAtBoundary(y)
    ensures ReplaceVarcharWords(x + "nvarchar" + y) == ReplaceVarcharWords(x) + "nvarchar" + ReplaceVarcharWords(y)
    ensures ReplaceVarcharWords(x + "varchar2" + y) == ReplaceVarcharWords(x) + "varchar2" + ReplaceVarcharWords(y)
    ensures ReplaceVarcharWords(x + "my_varchar" + y) == ReplaceVarcharWords(x) + "my_varchar" + ReplaceVarcharWords(y)
  {
    KeepsOtherWords(x, "nvarchar", y);
    KeepsOtherWords(x, "varchar2", y);
    KeepsOtherWords(x, "my_varchar", y);
  }

  // ---------------------------------------------------------------------
  // The reference, and the walk against it.
  // ---------------------------------------------------------------------

  /** The length of the run of word characters `s` starts with. */
  function WordLength(s: string): (n: nat)
    ensures n <= |s| && AllWord(s[..n])
    ensures n < |s| ==> !IsWordChar(s[n])
    ensures |s| > 0 && IsWordChar(s[0]) ==> n > 0
    decreases |s|
  {
    if |s| == 0 || !IsWordChar(s[0]) then 0
    else
      var n := 1 + WordLength(s[1..]);
      assert s[..n] == [s[0]] + s[1..][..n - 1];
      n
  }

  /** A word is replaced exactly when it is `varchar`. */
  function RewriteWord(w: string): string {
    if w == Varchar then NVarchar else w
  }

  /** Replace every maximal word that is exactly `varchar`. */
  function RewriteWords(s: string): string
    decreases |s|
  {
    if |s| == 0 then ""
    else if !IsWordChar(s[0]) then [s[0]] + RewriteWords(s[1..])
    else
      var n := WordLength(s);
      RewriteWord(s[..n]) + RewriteWords(s[n..])
  }

  /** A leading non-word character is copied and the walk restarts after it. */
  lemma ScanNonWordStep(s: string)
    requires |s| > 0 && !IsWordChar(s[0])
    ensures Scan(s, false) == [s[0]] + Scan(s[1..], false)
  {
    assert s == [] + [s[0]] + s[1..];
    ScanSplit([], s[0], s[1..], false);
  }

  /** A leading word followed by a non-word character is rewritten on its own. */
  lemma ScanWordStep(s: string)
    requires |s| > 0 && IsWordChar(s[0]) && WordLength(s) < |s|
    ensures var n := WordLength(s);
            Scan(s, false) == RewriteWord(s[..n]) + [s[n]] + Scan(s[n + 1..], false)
  {
    var n := WordLength(s);
    ScanSplitAt(s, n, false);
    ScanWord(s[..n]);
  }

  /** The regular-expression walk is the word-by-word rewrite. */
  lemma {:induction false} ScanIsRewriteWords(s: string)
    ensures ReplaceVarcharWords(s) == RewriteWords(s)
    decreases |s|
  {
    if |s| == 0 {
    } else if !IsWordChar(s[0]) {
      ScanNonWordStep(s);
      ScanIsRewriteWords(s[1..]);
    } else {
      var n := WordLength(s);
      if n == |s| {
        assert s[..n] == s && s[n..] == "";
        ScanWord(s);
      } else {
        ScanWordStep(s);
        ScanIsRewriteWords(s[n + 1..]);
        assert s[n..][1..] == s[n + 1..];
        assert RewriteWords(s[n..]) == [s[n]] + RewriteWords(s[n + 1..]);
      }
    }
  }
}

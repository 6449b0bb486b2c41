/** `MsCeTestManager`: SQL Server Compact knows neither `varchar` nor the
    `max` length, so every non-query command is rewritten before it runs —
    standalone `varchar` becomes `nvarchar`, then `(max)` becomes `(2000)`. */
module MsCeTestManager {
  import opened Wrappers
  import opened Clr
  import opened VarcharRewrite
  import opened MaxRewrite

  /** `ReplaceVarchar(sql)`: the two regular-expression replacements, in
      order. `Regex.Replace` rejects a null input with
      `ArgumentNullException("input")`. */
  function ReplaceVarchar(sql: Option<string>): (r: Result<string, Exception>)
    ensures r.Failure? <==> sql.None?
    ensures r.Failure? ==> r.error == ArgumentNull("input")
    ensures r.Success? ==> !HasStandaloneVarchar(r.value) && !HasMaxToken(r.value)
    ensures r.Success? ==> (r.value == sql.value <==> !HasStandaloneVarchar(sql.value) && !HasMaxToken(sql.value))
  {
    match sql
    case None => Failure(ArgumentNull("input"))
    case Some(s) =>
      var r := ReplaceMax(ReplaceVarcharWords(s));
      ReplaceVarcharClean(s);
      ReplaceVarcharUnchangedIff(s);
      Success(r)
  }

  /** Which kind of command the engine is about to execute. Only `NoQuery`
      (a command that returns no rows) is told apart; the other kinds are
      not distinguished by this handler. */
  datatype ExecuteType = NoQuery | OtherQuery

  /** The `Executing` handler: a `NoQuery` command has its text rewritten by
      `ReplaceVarchar`; any other command is left as it is. The result is the
      command text after the handler. */
  function Executing(executeType: ExecuteType, commandText: Option<string>): (r: Result<Option<string>, Exception>)
    ensures executeType != NoQuery ==> r == Success(commandText)
    ensures executeType == NoQuery ==> (r.Failure? <==> commandText.None?)
    ensures executeType == NoQuery && r.Success? ==> r.value.Some? && Success(r.value.value) == ReplaceVarchar(commandText)
    ensures executeType == NoQuery && r.Success? ==>
              !HasStandaloneVarchar(r.value.value) && !HasMaxToken(r.value.value)
  {
    if executeType != NoQuery then Success(commandText)
    else
      var text :- ReplaceVarchar(commandText);
      Success(Some(text))
  }

  // ---------------------------------------------------------------------
  // The `(max)` pass cannot bring back a standalone `varchar`.
  // ---------------------------------------------------------------------

  /** A standalone `varchar` at the start of a copied character was already
      one in the input: the six characters after `v` contain no `(`, so the
      `(max)` pass copied them. */
  lemma MaxPassCopiedMatchWasInput(s: string, afterWord: bool)
    requires |s| > 0
    ensures MatchAt([s[0]] + ScanMax(s[1..]), 0, afterWord) ==> MatchAt(s, 0, afterWord)
  {
    var t := ScanMax(s[1..]);
    var r := [s[0]] + t;
    if MatchAt(r, 0, afterWord) {
      assert t[..6] == r[1..7];
      assert NoParen(t[..6]);
      ScanMaxCopiesPrefix(s[1..], 6);
      assert s[..7] == [s[0]] + s[1..][..6];
      if |t| > 6 {
        var rest := s[1..][6..];
        assert |rest| > 0;
        ScanMaxHead(rest);
        assert t[6] == ScanMax(rest)[0] == rest[0];
      }
    }
  }

  /** `(2000)` followed by `t` holds a standalone `varchar` only in `t`. */
  lemma Max2000HasNoMatch(t: string, afterWord: bool)
    ensures HasMatch(Max2000 + t, afterWord) <==> HasMatch(t, false)
  {
    var r := Max2000 + t;
    HasMatchAppend(Max2000, t, afterWord);
    forall p | 0 <= p < |Max2000|
      ensures !MatchAt(r, p, afterWord)
    {
      assert r[p] == Max2000[p];
    }
  }

  /** A token followed by `u` holds a standalone `varchar` only in `u`. */
  lemma TokenHasNoMatch(s: string, afterWord: bool)
    requires IsMaxAt(s, 0)
    ensures HasMatch(s, afterWord) <==> HasMatch(s[5..], false)
  {
    var x := s[..5];
    assert s == x + s[5..];
    HasMatchAppend(x, s[5..], afterWord);
    forall p | 0 <= p < 5
      ensures !MatchAt(s, p, afterWord)
    {
      assert s[p] != 'v';
    }
  }

  /** The `(max)` pass keeps a text free of standalone `varchar`. */
  lemma {:induction false} MaxPassKeepsNoMatch(s: string, afterWord: bool)
    requires !HasMatch(s, afterWord)
    ensures !HasMatch(ScanMax(s), afterWord)
    decreases |s|
  {
    if |s| == 0 {
    } else if IsMaxAt(s, 0) {
      TokenHasNoMatch(s, afterWord);
      MaxPassKeepsNoMatch(s[5..], false);
      Max2000HasNoMatch(ScanMax(s[5..]), afterWord);
    } else {
      assert s == [s[0]] + s[1..];
      HasMatchCons(s[0], s[1..], afterWord);
      MaxPassKeepsNoMatch(s[1..], IsWordChar(s[0]));
      HasMatchCons(s[0], ScanMax(s[1..]), afterWord);
      MaxPassCopiedMatchWasInput(s, afterWord);
    }
  }

  // ---------------------------------------------------------------------
  // What the rewrite promises.
  // ---------------------------------------------------------------------

  /** After the rewrite no standalone `varchar` and no `(max)` token remain. */
  lemma ReplaceVarcharClean(s: string)
    ensures !HasStandaloneVarchar(ReplaceMax(ReplaceVarcharWords(s)))
    ensures !HasMaxToken(ReplaceMax(ReplaceVarcharWords(s)))
  {
    ScanLeavesNoMatch(s, false);
    MaxPassKeepsNoMatch(ReplaceVarcharWords(s), false);
    ScanMaxLeavesNoToken(ReplaceVarcharWords(s));
  }

  /** The rewrite leaves a text alone exactly when it holds neither a
      standalone `varchar` nor a `(max)` token. */
  lemma ReplaceVarcharUnchangedIff(s: string)
    ensures ReplaceMax(ReplaceVarcharWords(s)) == s <==> !HasStandaloneVarchar(s) && !HasMaxToken(s)
  {
    var v := ReplaceVarcharWords(s);
    ScanUnchangedIffNoMatch(s, false);
    ScanMaxUnchangedIffNoToken(s);
    if HasStandaloneVarchar(s) {
      ScanGrowsOnMatch(s, false);
    } else if v == s {
      ScanMaxUnchangedIffNoToken(v);
    }
  }

  /** Rewriting twice is rewriting once. */
  lemma ReplaceVarcharIdempotent(s: string)
    ensures ReplaceVarchar(Some(s)).Success?
    ensures ReplaceVarchar(Some(ReplaceVarchar(Some(s)).value)) == ReplaceVarchar(Some(s))
  {
    var r := ReplaceMax(ReplaceVarcharWords(s));
    ReplaceVarcharClean(s);
    ReplaceVarcharUnchangedIff(r);
  }

  /** A command that has passed through the handler passes through it again
      unchanged. */
  lemma ExecutingTwiceIsExecutingOnce(executeType: ExecuteType, commandText: Option<string>)
    requires Executing(executeType, commandText).Success?
    ensures Executing(executeType, Executing(executeType, commandText).value) == Executing(executeType, commandText)
  {
    if executeType == NoQuery {
      ReplaceVarcharIdempotent(commandText.value);
    }
  }
}

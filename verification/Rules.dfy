/** How a route combines the results of its rules. */
module Rules {

  datatype Match = Match(score: real, reason: string, vars: map<string, string>)

  const NO_MATCH := Match(0.0, "", map[])

  function MergeMatch(left: Match, right: Match): Match {
    Match(left.score + right.score,
          if right.reason == "" then left.reason
          else (if left.reason == "" then "" else left.reason + "; ") + right.reason,
          left.vars + right.vars)
  }

  /** A rule that is missing, that does not match, or that matches with a result. */
  datatype RuleResult = Missing | Fails | Matches(hit: Match)

  function Hits(rules: seq<RuleResult>): seq<Match> {
    if rules == [] then []
    else if rules[0].Matches? then [rules[0].hit] + Hits(rules[1..])
    else Hits(rules[1..])
  }

  function TotalScore(hits: seq<Match>): real {
    if hits == [] then 0.0 else hits[0].score + TotalScore(hits[1..])
  }

  function JoinTwo(a: string, b: string): string {
    if b == "" then a else if a == "" then b else a + "; " + b
  }

  function JoinReasons(hits: seq<Match>): string {
    if hits == [] then "" else JoinTwo(hits[0].reason, JoinReasons(hits[1..]))
  }

  function LastVars(hits: seq<Match>): map<string, string> {
    if hits == [] then map[] else hits[0].vars + LastVars(hits[1..])
  }

  function Combined(hits: seq<Match>): Match { Match(TotalScore(hits), JoinReasons(hits), LastVars(hits)) }

  lemma {:induction false} HitsSnoc(rules: seq<RuleResult>, rule: RuleResult)
    ensures Hits(rules + [rule]) == if rule.Matches? then Hits(rules) + [rule.hit] else Hits(rules)
  {
    if rules == [] {
      assert rules + [rule] == [rule] && [rule][1..] == [];
    } else {
      var all := rules + [rule];
      assert all[0] == rules[0] && all[1..] == rules[1..] + [rule];
      HitsSnoc(rules[1..], rule);
      if rules[0].Matches? && rule.Matches? {
        assert [rules[0].hit] + (Hits(rules[1..]) + [rule.hit]) == Hits(rules) + [rule.hit];
      }
    }
  }

  lemma JoinIsAssociative(a: string, b: string, c: string)
    ensures JoinTwo(a, JoinTwo(b, c)) == JoinTwo(JoinTwo(a, b), c)
  {
    assert a + "; " + (b + "; " + c) == (a + "; " + b) + "; " + c;
  }

  lemma {:induction false} ScoreSnoc(hits: seq<Match>, hit: Match)
    ensures TotalScore(hits + [hit]) == TotalScore(hits) + hit.score
  {
    if hits == [] {
      assert hits + [hit] == [hit] && [hit][1..] == [];
    } else {
      assert (hits + [hit])[1..] == hits[1..] + [hit];
      ScoreSnoc(hits[1..], hit);
    }
  }

  lemma {:induction false} ReasonSnoc(hits: seq<Match>, hit: Match)
    ensures JoinReasons(hits + [hit]) == JoinTwo(JoinReasons(hits), hit.reason)
  {
    if hits == [] {
      assert hits + [hit] == [hit] && [hit][1..] == [];
    } else {
      assert (hits + [hit])[1..] == hits[1..] + [hit];
      ReasonSnoc(hits[1..], hit);
      JoinIsAssociative(hits[0].reason, JoinReasons(hits[1..]), hit.reason);
    }
  }

  lemma {:induction false} VarsSnoc(hits: seq<Match>, hit: Match)
    ensures LastVars(hits + [hit]) == LastVars(hits) + hit.vars
  {
    if hits == [] {
      assert hits + [hit] == [hit] && [hit][1..] == [];
    } else {
      assert (hits + [hit])[1..] == hits[1..] + [hit];
      VarsSnoc(hits[1..], hit);
    }
  }

  lemma CombinedSnoc(hits: seq<Match>, hit: Match)
    ensures Combined(hits + [hit]) == MergeMatch(Combined(hits), hit)
  {
    ScoreSnoc(hits, hit);
    ReasonSnoc(hits, hit);
    VarsSnoc(hits, hit);
  }

  /** Two matches together: their reasons, where both have one, are joined by a semicolon and a space. */
  lemma TwoMatches(a: Match, b: Match)
    requires a.reason != "" && b.reason != ""
    ensures Combined([a, b]) == Match(a.score + b.score, a.reason + "; " + b.reason, a.vars + b.vars)
  {
    assert [a, b] == [] + [a] + [b];
    CombinedSnoc([] + [a], b);
    CombinedSnoc([], a);
  }

  /** A variable has the value that the last rule to set it gave, and is absent if none did. */
  lemma {:induction false} LastWriterWins(hits: seq<Match>, key: string)
    ensures key in LastVars(hits) <==> exists i :: 0 <= i < |hits| && key in hits[i].vars
    ensures forall i | 0 <= i < |hits| && key in hits[i].vars && (forall j :: i < j < |hits| ==> key !in hits[j].vars)
              :: LastVars(hits)[key] == hits[i].vars[key]
  {
    if hits != [] {
      var rest := hits[1..];
      LastWriterWins(rest, key);
      assert forall i :: 0 <= i < |rest| ==> rest[i] == hits[i + 1];
      if key in LastVars(rest) {
        var i :| 0 <= i < |rest| && key in rest[i].vars;
        assert key in hits[i + 1].vars;
      }
    }
  }

  /**
   A route matches exactly when no rule fails; scores add up, reasons are joined in order, and where rules set the same
   variable the later rule wins.
   */
  method MatchRules(rules: seq<RuleResult>) returns (merged: Match, ok: bool)
    ensures ok <==> forall i :: 0 <= i < |rules| ==> !rules[i].Fails?
    ensures merged == if ok then Combined(Hits(rules)) else NO_MATCH
  {
    merged := NO_MATCH;
    for i := 0 to |rules|
      invariant forall j :: 0 <= j < i ==> !rules[j].Fails?
      invariant merged == Combined(Hits(rules[..i]))
    {
      assert rules[..i + 1] == rules[..i] + [rules[i]];
      HitsSnoc(rules[..i], rules[i]);
      if rules[i].Missing? {
        continue;
      }
      if rules[i].Fails? {
        return NO_MATCH, false;
      }
      CombinedSnoc(Hits(rules[..i]), rules[i].hit);
      merged := MergeMatch(merged, rules[i].hit);
    }
    assert rules[..|rules|] == rules;
    ok := true;
  }
}

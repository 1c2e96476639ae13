/**
 Escaping of OneBot 11 CQ codes.  Go's `strings.Replacer` scans its input once from left to right; where several of
 its old strings match, the earliest argument wins, and replaced text is not scanned again.
 */
module CqEscape {
  import opened Common

  datatype Rule = Rule(source: string, target: string)

  /** The first rule, in argument order, whose old string starts s; the search begins at argument i. */
  function FirstMatch(rules: seq<Rule>, s: string, i: nat := 0): (m: Option<Rule>)
    requires i <= |rules|
    decreases |rules| - i
  {
    if i == |rules| then None
    else if rules[i].source <= s then Some(rules[i])
    else FirstMatch(rules, s, i + 1)
  }

  predicate NonEmptyRules(rules: seq<Rule>) {
    forall i :: 0 <= i < |rules| ==> rules[i].source != ""
  }

  lemma FirstMatchIsARule(rules: seq<Rule>, s: string, i: nat)
    requires i <= |rules| && FirstMatch(rules, s, i).Some?
    ensures FirstMatch(rules, s, i).value in rules && FirstMatch(rules, s, i).value.source <= s
    decreases |rules| - i
  {
  }

  function Replace(rules: seq<Rule>, s: string): string
    requires NonEmptyRules(rules)
    decreases |s|
  {
    if s == "" then ""
    else match FirstMatch(rules, s)
      case None => [s[0]] + Replace(rules, s[1..])
      case Some(rule) => FirstMatchIsARule(rules, s, 0); rule.target + Replace(rules, s[|rule.source|..])
  }

  /** Text outside codes, or a parameter value, where the comma is escaped too. */
  datatype Place = InText | InParam

  const AMP := Rule("&", "&amp;")
  const OPEN := Rule("[", "&#91;")
  const CLOSE := Rule("]", "&#93;")
  const COMMA := Rule(",", "&#44;")
  const UNAMP := Rule("&amp;", "&")
  const UNOPEN := Rule("&#91;", "[")
  const UNCLOSE := Rule("&#93;", "]")
  const UNCOMMA := Rule("&#44;", ",")

  function EscapeRules(p: Place): (rules: seq<Rule>)
    ensures NonEmptyRules(rules)
  {
    if p.InText? then [AMP, OPEN, CLOSE] else [AMP, OPEN, CLOSE, COMMA]
  }

  function UnescapeRules(p: Place): (rules: seq<Rule>)
    ensures NonEmptyRules(rules)
  {
    if p.InText? then [UNOPEN, UNCLOSE, UNAMP] else [UNCOMMA, UNOPEN, UNCLOSE, UNAMP]
  }

  function Escape(p: Place, s: string): string { Replace(EscapeRules(p), s) }

  function Unescape(p: Place, s: string): string { Replace(UnescapeRules(p), s) }

  /** What escaping does to a single character. */
  function Code(p: Place, c: char): (code: string)
    ensures code != ""
  {
    if c == '&' then "&amp;" else if c == '[' then "&#91;" else if c == ']' then "&#93;"
    else if c == ',' && p.InParam? then "&#44;" else [c]
  }

  lemma FirstMatchEscape(p: Place, s: string)
    requires s != ""
    ensures FirstMatch(EscapeRules(p), s) ==
              if s[0] == '&' then Some(AMP) else if s[0] == '[' then Some(OPEN) else if s[0] == ']' then Some(CLOSE)
              else if s[0] == ',' && p.InParam? then Some(COMMA) else None
  {
    var rules := EscapeRules(p);
    assert FirstMatch(rules, s, |rules|) == None;
    assert FirstMatch(rules, s, 2) == if s[0] == ']' then Some(CLOSE) else FirstMatch(rules, s, 3);
    assert FirstMatch(rules, s, 1) == if s[0] == '[' then Some(OPEN) else FirstMatch(rules, s, 2);
  }

  lemma EscapeHead(p: Place, s: string)
    requires s != ""
    ensures Escape(p, s) == Code(p, s[0]) + Escape(p, s[1..])
  {
    FirstMatchEscape(p, s);
  }

  lemma EscapeNothing(p: Place)
    ensures Escape(p, "") == ""
  {
  }

  lemma {:induction false} EscapeAppend(p: Place, a: string, b: string)
    ensures Escape(p, a + b) == Escape(p, a) + Escape(p, b)
  {
    hide Replace, FirstMatch;
    if a == "" {
      EscapeNothing(p);
      assert a + b == b;
    } else {
      EscapeHead(p, a);
      EscapeHead(p, a + b);
      assert (a + b)[1..] == a[1..] + b;
      EscapeAppend(p, a[1..], b);
    }
  }

  /** A character that cannot end a text run or a code, nor, inside a parameter, separate it from the next. */
  predicate Clean(p: Place, c: char) {
    c != '[' && c != ']' && (p.InParam? ==> c != ',')
  }

  /**
   Escaped text has no brackets, and an escaped parameter no comma either; only the empty string escapes to nothing.
   */
  lemma {:induction false} EscapedIsClean(p: Place, s: string)
    ensures forall i :: 0 <= i < |Escape(p, s)| ==> Clean(p, Escape(p, s)[i])
    ensures Escape(p, s) == "" <==> s == ""
  {
    hide Replace, FirstMatch;
    EscapeNothing(p);
    if s != "" {
      EscapeHead(p, s);
      EscapedIsClean(p, s[1..]);
    }
  }

  lemma FirstMatchUnescape(p: Place, s: string)
    requires s != ""
    ensures FirstMatch(UnescapeRules(p), s) ==
              if UNCOMMA.source <= s && p.InParam? then Some(UNCOMMA)
              else if UNOPEN.source <= s then Some(UNOPEN) else if UNCLOSE.source <= s then Some(UNCLOSE)
              else if UNAMP.source <= s then Some(UNAMP) else None
  {
    var rules := UnescapeRules(p);
    var n := |rules|;
    assert FirstMatch(rules, s, n) == None;
    assert FirstMatch(rules, s, n - 1) == if UNAMP.source <= s then Some(UNAMP) else None;
    assert FirstMatch(rules, s, n - 2) == if UNCLOSE.source <= s then Some(UNCLOSE) else FirstMatch(rules, s, n - 1);
    assert FirstMatch(rules, s, n - 3) == if UNOPEN.source <= s then Some(UNOPEN) else FirstMatch(rules, s, n - 2);
  }

  lemma UnescapeCode(p: Place, c: char, rest: string)
    ensures Unescape(p, Code(p, c) + rest) == [c] + Unescape(p, rest)
  {
    var s := Code(p, c) + rest;
    FirstMatchUnescape(p, s);
    assert s[0] == Code(p, c)[0];
    if Code(p, c) == [c] {
      assert s[1..] == rest;
    } else {
      assert s[1] == Code(p, c)[1] && s[2] == Code(p, c)[2] && s[3] == Code(p, c)[3];
      assert s[|Code(p, c)|..] == rest;
    }
  }

  /** Unescaping undoes escaping, whatever follows: escaped text never runs into the text after it. */
  lemma {:induction false} UnescapeUndoesEscape(p: Place, a: string, b: string)
    ensures Unescape(p, Escape(p, a) + b) == a + Unescape(p, b)
  {
    hide Replace, FirstMatch, Code;
    if a == "" {
      EscapeNothing(p);
      assert Escape(p, a) + b == b;
    } else {
      EscapeHead(p, a);
      var rest := Escape(p, a[1..]) + b;
      assert Escape(p, a) + b == Code(p, a[0]) + rest;
      UnescapeCode(p, a[0], rest);
      UnescapeUndoesEscape(p, a[1..], b);
      assert [a[0]] + (a[1..] + Unescape(p, b)) == a + Unescape(p, b);
    }
  }

  lemma RoundTrip(p: Place, s: string)
    ensures Unescape(p, Escape(p, s)) == s
  {
    UnescapeUndoesEscape(p, s, "");
    assert Escape(p, s) + "" == Escape(p, s);
  }
}

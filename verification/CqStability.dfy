/**
 When parsing is stable: exactly which inputs print and parse back to the chain they were parsed to.  First as a
 condition on the parsed chain, then on the input itself, read off its codes.  The codes that do not come back are those
 whose parts are all malformed, and those of type text that run into other texts.
 */
module CqStability {
  import opened Common
  import opened CqEscape
  import opened CqCode
  import opened CqLaws

  // ---------------------------------------------------------------- the chains that are their own replay

  /** A segment that comes back from text as it is, given whether a segment of kind text stands before it. */
  predicate Returns(afterText: bool, seg: Segment) {
    if seg.IsText() then !afterText && seg.TextOf() != "" && seg == Text(seg.TextOf())
    else seg == Reread(seg)
  }

  predicate AllReturn(afterText: bool, chain: Chain)
    decreases |chain|
  {
    chain == [] || (Returns(afterText, chain[0]) && AllReturn(chain[0].kind == "text", chain[1..]))
  }

  predicate EndsInText(chain: Chain) { chain != [] && chain[|chain| - 1].kind == "text" }

  lemma {:induction false} AllReturnSnoc(afterText: bool, chain: Chain, seg: Segment)
    ensures AllReturn(afterText, chain + [seg]) <==>
              AllReturn(afterText, chain) && Returns(if chain == [] then afterText else EndsInText(chain), seg)
    decreases |chain|
  {
    if chain == [] {
      assert chain + [seg] == [seg] && [seg][1..] == [];
    } else {
      assert (chain + [seg])[1..] == chain[1..] + [seg];
      AllReturnSnoc(chain[0].kind == "text", chain[1..], seg);
    }
  }

  lemma {:induction false} ReplayIsNoLonger(acc: Chain, chain: Chain)
    ensures |Replay(acc, chain)| <= |acc| + |chain|
    decreases |chain|
  {
    if chain != [] {
      if chain[0].IsText() {
        ReplayIsNoLonger(AppendText(acc, chain[0].TextOf()), chain[1..]);
      } else {
        ReplayIsNoLonger(acc + [Reread(chain[0])], chain[1..]);
      }
    }
  }

  lemma {:induction false} ReplayKeepsFront(acc: Chain, chain: Chain)
    requires |Replay(acc, chain)| == |acc| + |chain|
    ensures Replay(acc, chain)[..|acc|] == acc
    decreases |chain|
  {
    if chain != [] {
      var next := if chain[0].IsText() then AppendText(acc, chain[0].TextOf()) else acc + [Reread(chain[0])];
      ReplayIsNoLonger(next, chain[1..]);
      ReplayKeepsFront(next, chain[1..]);
      assert next[..|acc|] == acc;
      assert Replay(acc, chain)[..|acc|] == Replay(acc, chain)[..|acc| + 1][..|acc|];
    }
  }

  lemma {:induction false} ReplayIsIdentityIff(acc: Chain, chain: Chain)
    ensures Replay(acc, chain) == acc + chain <==> AllReturn(EndsInText(acc), chain)
    decreases |chain|
  {
    if chain != [] {
      var seg, rest := chain[0], chain[1..];
      var next := if seg.IsText() then AppendText(acc, seg.TextOf()) else acc + [Reread(seg)];
      assert (acc + [seg]) + rest == acc + chain;
      ReplayIsIdentityIff(acc + [seg], rest);
      if Replay(acc, chain) == acc + chain {
        ReplayIsNoLonger(next, rest);
        ReplayKeepsFront(next, rest);
        assert next == (acc + chain)[..|acc| + 1] == acc + [seg];
        assert next[|acc|] == seg;
      }
    }
  }

  /** For every input at all: the condition on the chain that it parses to. */
  lemma {:induction false} StableIffAllReturn(input: string)
    ensures Parse(Render(Parse(input))) == Parse(input) <==> AllReturn(false, Parse(input))
  {
    ParsePrintParse(input);
    ReplayIsIdentityIff([], Parse(input));
    assert [] + Parse(input) == Parse(input);
  }

  // ---------------------------------------------------------------- reading the condition off the input

  predicate IsTyped(body: string) { ParseSegment(body).Some? }

  /** The text that an input starts with, up to its first code that has a type; codes without one are text. */
  function LeadingText(input: string): string
    decreases |input|
  {
    match NextCode(input)
    case None =>
      (match Index(input, CQ)
       case None => Unescape(InText, input)
       case Some(start) => Unescape(InText, input[..start]) + Unescape(InText, input[start..]))
    case Some(cut) =>
      if IsTyped(cut.body) then Unescape(InText, cut.run)
      else Unescape(InText, cut.run) + Unescape(InText, CQ + cut.body + "]") + LeadingText(cut.rest)
  }

  datatype TypedCode = TypedCode(seg: Segment, rest: string)

  /** The first code that has a type, and the input after it. */
  function FirstTyped(input: string): (code: Option<TypedCode>)
    ensures code.Some? ==> |code.value.rest| < |input|
    decreases |input|
  {
    match NextCode(input)
    case None => None
    case Some(cut) =>
      if IsTyped(cut.body) then Some(TypedCode(ParseSegment(cut.body).value, cut.rest)) else FirstTyped(cut.rest)
  }

  /**
   A typed code that comes back as it is, given whether text stands before it and which text follows.  A code of type
   text that has a "text" parameter or is followed by text becomes a text segment: it must not follow text, hold no
   other parameter, and not end up empty.  Any other code must not have parts that are all malformed.
   */
  predicate CodeReturns(afterText: bool, seg: Segment, text: string) {
    if seg.kind == "text" && ("text" in seg.Items() || text != "") then
      && !afterText && seg.Items().Keys <= {"text"}
      && !(text == "" && seg.Items()["text"].Sprint() == "")
    else seg.data != Some(map[])
  }

  /** Whether each typed code of an input comes back as it is. */
  predicate CodesReturn(afterText: bool, input: string)
    decreases |input|
  {
    match FirstTyped(input)
    case None => true
    case Some(code) =>
      var text := LeadingText(code.rest);
      CodeReturns(afterText, code.seg, text) && CodesReturn(code.seg.kind == "text" || text != "", code.rest)
  }

  predicate Stable(input: string) { CodesReturn(LeadingText(input) != "", input) }

  /** Parsing is appending the leading text and then, code by code, what each contributes. */
  lemma {:induction false} ParseByTypedCodes(acc: Chain, input: string)
    ensures ParseFrom(acc, input) ==
              var before := AppendText(acc, LeadingText(input));
              match FirstTyped(input)
              case None => before
              case Some(code) => ParseFrom(before + [code.seg], code.rest)
    decreases |input|
  {
    match NextCode(input)
    case None =>
      if Index(input, CQ).Some? {
        var start := Index(input, CQ).value;
        AppendTextTwice(acc, Unescape(InText, input[..start]), Unescape(InText, input[start..]));
      }
    case Some(cut) =>
      if !IsTyped(cut.body) {
        var run, raw := Unescape(InText, cut.run), Unescape(InText, CQ + cut.body + "]");
        AppendTextTwice(acc, run, raw);
        AppendTextTwice(acc, run + raw, LeadingText(cut.rest));
        ParseByTypedCodes(AppendText(acc, run + raw), cut.rest);
      }
  }

  /** What the parser gives a code: string values only, and no qq on at. */
  predicate AsParsed(seg: Segment) {
    (forall k :: k in seg.Items() ==> seg.Items()[k].Str?) && (seg.kind == "at" ==> "qq" !in seg.Items())
  }

  lemma {:induction false} TypedCodeIsAsParsed(input: string)
    ensures FirstTyped(input).Some? ==> AsParsed(FirstTyped(input).value.seg)
    decreases |input|
  {
    if NextCode(input).Some? {
      var cut := NextCode(input).value;
      if IsTyped(cut.body) {
        BodyHasNoBracket(input);
        var parts := Split(cut.body, ',');
        assert forall i :: 0 <= i < |parts| ==> ']' !in parts[i];
        AddParamsKeepsKeysSafe(parts[0], map[], parts[1..]);
      } else {
        TypedCodeIsAsParsed(cut.rest);
      }
    }
  }

  lemma RereadAsParsed(seg: Segment)
    requires AsParsed(seg)
    ensures Reread(seg) == seg <==> seg.data != Some(map[])
  {
    assert Strings(seg.kind, seg.Items()) == seg.Items();
  }

  /** One code and the text after it, appended to a chain. */
  lemma CodeAndTextReturn(acc: Chain, seg: Segment, text: string)
    requires AsParsed(seg)
    ensures AllReturn(false, AppendText(acc + [seg], text)) <==>
              AllReturn(false, acc) && CodeReturns(EndsInText(acc), seg, text)
    ensures EndsInText(AppendText(acc + [seg], text)) <==> seg.kind == "text" || text != ""
  {
    var chain := AppendText(acc + [seg], text);
    RereadAsParsed(seg);
    if text == "" {
      AllReturnSnoc(false, acc, seg);
      if seg.IsText() {
        TextSegmentIs(seg);
      }
    } else if seg.kind == "text" {
      var last := chain[|chain| - 1];
      assert chain == acc + [last];
      AllReturnSnoc(false, acc, last);
      TextSegmentIs(last);
    } else {
      AllReturnSnoc(false, acc + [seg], Text(text));
      AllReturnSnoc(false, acc, seg);
      TextSegmentIs(Text(text));
    }
  }

  lemma TextSegmentIs(seg: Segment)
    requires seg.IsText()
    ensures seg == Text(seg.TextOf()) <==> seg.Items().Keys <= {"text"}
  {
    if seg.Items().Keys <= {"text"} {
      assert seg.Items() == map["text" := seg.Items()["text"]];
    }
  }

  lemma {:induction false} CodesReturnIff(acc: Chain, input: string)
    ensures AllReturn(false, ParseFrom(acc, input)) <==>
              var before := AppendText(acc, LeadingText(input));
              AllReturn(false, before) && CodesReturn(EndsInText(before), input)
    decreases |input|
  {
    ParseByTypedCodes(acc, input);
    if FirstTyped(input).Some? {
      var code := FirstTyped(input).value;
      var before := AppendText(acc, LeadingText(input));
      TypedCodeIsAsParsed(input);
      CodesReturnIff(before + [code.seg], code.rest);
      CodeAndTextReturn(before, code.seg, LeadingText(code.rest));
    }
  }

  /**
   Which inputs are stable, for every input at all and as a condition on the input: printing a parse and parsing it
   again gives the same chain if and only if each typed code comes back as it is.
   */
  lemma {:induction false} ParsingIsStableIff(input: string)
    ensures Parse(Render(Parse(input))) == Parse(input) <==> Stable(input)
  {
    StableIffAllReturn(input);
    CodesReturnIff([], input);
    var before := AppendText([], LeadingText(input));
    if LeadingText(input) != "" {
      assert before == [Text(LeadingText(input))];
      AllReturnSnoc(false, [], before[0]);
      TextSegmentIs(before[0]);
      assert [] + [before[0]] == before;
    }
  }

  /** No code of the input has the type text. */
  predicate NoTextCode(input: string)
    decreases |input|
  {
    match NextCode(input)
    case None => true
    case Some(cut) =>
      && (ParseSegment(cut.body).Some? ==> ParseSegment(cut.body).value.kind != "text")
      && NoTextCode(cut.rest)
  }

  /** Plain, with no empty text and no two adjacent texts. */
  predicate Settled(chain: Chain) {
    && AllPlain(chain)
    && (forall i :: 0 <= i < |chain| && chain[i].kind == "text" ==> chain[i].TextOf() != "")
    && (forall i :: 0 < i < |chain| ==> chain[i - 1].kind != "text" || chain[i].kind != "text")
  }

  lemma AppendTextSettles(chain: Chain, t: string)
    requires Settled(chain)
    ensures Settled(AppendText(chain, t))
  {
    if t != "" && chain != [] && chain[|chain| - 1].kind == "text" {
      var last := chain[|chain| - 1];
      assert Plain(last);
      assert last.Items()["text" := Str(last.TextOf() + t)] == map["text" := Str(last.TextOf() + t)];
    }
  }

  lemma CodeSettles(chain: Chain, seg: Segment)
    requires Settled(chain) && Plain(seg) && seg.kind != "text"
    ensures Settled(chain + [seg])
  {
  }

  lemma {:induction false} ParsedIsSettled(acc: Chain, input: string)
    requires Settled(acc) && NoTextCode(input)
    ensures Settled(ParseFrom(acc, input))
    decreases |input|
  {
    hide Settled, Plain, AppendText, Unescape, ParseSegment, Index;
    match NextCode(input)
    case Some(cut) =>
      var chain := AppendText(acc, Unescape(InText, cut.run));
      AppendTextSettles(acc, Unescape(InText, cut.run));
      BodyHasNoBracket(input);
      if ParseSegment(cut.body).Some? {
        ParsedSegmentIsCarried(cut.body);
        CodeSettles(chain, ParseSegment(cut.body).value);
      } else {
        AppendTextSettles(chain, Unescape(InText, CQ + cut.body + "]"));
      }
      ParsedIsSettled(AppendCode(chain, cut.body), cut.rest);
    case None =>
      match Index(input, CQ)
      case None => AppendTextSettles(acc, Unescape(InText, input));
      case Some(start) =>
        AppendTextSettles(acc, Unescape(InText, input[..start]));
        AppendTextSettles(AppendText(acc, Unescape(InText, input[..start])), Unescape(InText, input[start..]));
  }

  function TidyAll(chain: Chain): (tidy: Chain)
    ensures |tidy| == |chain|
  {
    seq(|chain|, i requires 0 <= i < |chain| => Tidy(chain[i]))
  }

  lemma {:induction false} SettledIsMerged(chain: Chain)
    requires Settled(chain)
    ensures Merged(chain) == TidyAll(chain)
  {
    if chain != [] {
      assert Plain(chain[0]);
      SettledIsMerged(chain[1..]);
      assert TidyAll(chain) == [Tidy(chain[0])] + TidyAll(chain[1..]);
      if |chain| > 1 && chain[0].IsText() {
        assert chain[1].kind != "text";
      }
    }
  }

  // ---------------------------------------------------------------- malformed parts

  /** A part without '=' or with nothing before it, which the parser skips. */
  predicate Malformed(part: string) { IndexChar(part, '=').None? || IndexChar(part, '=') == Some(0) }

  /** A code with a type and at least one part after it, all of them malformed. */
  predicate Barren(body: string) {
    var parts := Split(body, ',');
    parts[0] != "" && |parts| > 1 && forall i :: 1 <= i < |parts| ==> Malformed(parts[i])
  }

  predicate NoBarrenCode(input: string)
    decreases |input|
  {
    match NextCode(input)
    case None => true
    case Some(cut) => !Barren(cut.body) && NoBarrenCode(cut.rest)
  }

  lemma AddParamEmptyIff(kind: string, data: Data, part: string)
    ensures AddParam(kind, data, part) == map[] <==> data == map[] && Malformed(part)
  {
    if !Malformed(part) {
      var i := IndexChar(part, '=').value;
      var key := if kind == "at" && part[..i] == "qq" then "id" else part[..i];
      assert key in AddParam(kind, data, part);
    }
  }

  lemma {:induction false} AddParamsEmptyIff(kind: string, data: Data, parts: seq<string>)
    ensures AddParams(kind, data, parts) == map[] <==>
              data == map[] && forall i :: 0 <= i < |parts| ==> Malformed(parts[i])
    decreases |parts|
  {
    hide AddParam, Malformed;
    if parts != [] {
      AddParamEmptyIff(kind, data, parts[0]);
      AddParamsEmptyIff(kind, AddParam(kind, data, parts[0]), parts[1..]);
      assert forall i :: 1 <= i < |parts| ==> parts[i] == parts[1..][i - 1];
    }
  }

  lemma BarrenIff(body: string)
    requires IsTyped(body)
    ensures ParseSegment(body).value.data == Some(map[]) <==> Barren(body)
  {
    var parts := Split(body, ',');
    if |parts| > 1 {
      AddParamsEmptyIff(parts[0], map[], parts[1..]);
      assert forall i :: 1 <= i < |parts| ==> parts[i] == parts[1..][i - 1];
    }
  }

  lemma {:induction false} CodesReturnWithoutTextCodes(afterText: bool, input: string)
    requires NoTextCode(input)
    ensures CodesReturn(afterText, input) <==> NoBarrenCode(input)
    decreases |input|
  {
    if NextCode(input).Some? {
      var cut := NextCode(input).value;
      if IsTyped(cut.body) {
        BarrenIff(cut.body);
        CodesReturnWithoutTextCodes(LeadingText(cut.rest) != "", cut.rest);
      } else {
        CodesReturnWithoutTextCodes(afterText, cut.rest);
      }
    }
  }

  lemma TidyAllIsIdentityIff(chain: Chain)
    ensures TidyAll(chain) == chain <==> forall seg :: seg in chain ==> seg.data != Some(map[])
  {
    if TidyAll(chain) == chain {
      forall seg | seg in chain ensures seg.data != Some(map[]) {
        var i :| 0 <= i < |chain| && chain[i] == seg;
        assert TidyAll(chain)[i] == seg;
      }
    }
  }

  lemma SecondParseTidies(input: string)
    requires NoTextCode(input)
    ensures Parse(Render(Parse(input))) == TidyAll(Parse(input))
  {
    hide ParseFrom, Render, NoTextCode;
    ParsedIsSettled([], input);
    PlainChainsComeBack(Parse(input));
    SettledIsMerged(Parse(input));
  }

  /**
   Without codes of type text, a second trip through text changes nothing but this: a code whose parts are all malformed
   has an empty map the first time and nil the second.  It is the identity if and only if the input has no such code.
   */
  lemma {:induction false} ParsingIsStable(input: string)
    requires NoTextCode(input)
    ensures Parse(Render(Parse(input))) == TidyAll(Parse(input))
    ensures Parse(Render(Parse(input))) == Parse(input) <==> NoBarrenCode(input)
    ensures NoBarrenCode(input) <==> forall seg :: seg in Parse(input) ==> seg.data != Some(map[])
  {
    hide Parse, Render, NoTextCode, NoBarrenCode, CodesReturn, LeadingText;
    SecondParseTidies(input);
    TidyAllIsIdentityIff(Parse(input));
    ParsingIsStableIff(input);
    CodesReturnWithoutTextCodes(LeadingText(input) != "", input);
  }

  // ---------------------------------------------------------------- inputs that fail, and one that does not

  lemma {:induction false} ParseRunThenCode(run: string, body: string, tail: string, seg: Segment)
    requires ']' !in body && ParseSegment(body) == Some(seg) && (forall i :: 0 <= i < |run| ==> run[i] != '[')
    ensures Parse(run + (CQ + body + "]" + tail)) == ParseFrom(AppendText([], Unescape(InText, run)) + [seg], tail)
  {
    NextCodeIs(run, body, tail);
  }

  lemma BarrenBody(kind: string, part: string)
    requires SafeKind(kind) && ',' !in part && ']' !in part && '=' !in part
    ensures ParseSegment(kind + "," + part) == Some(Segment(kind, Some(map[]))) && ']' !in kind + "," + part
  {
    SplitHead(kind, part);
    SplitHead(part, "");
    assert ([kind] + [part])[1..] == [part] && [part][1..] == [];
    assert AddParams(kind, map[], [part]) == AddParam(kind, map[], part) == map[];
    assert forall c :: c in kind + "," + part ==> c in kind || c == ',' || c in part;
  }

  /** An input that is one code. */
  lemma SoleCode(body: string)
    requires ']' !in body && IsTyped(body)
    ensures
      var input := "" + (CQ + body + "]" + "");
      && NextCode(input) == Some(Cut("", body, "")) && Parse(input) == [ParseSegment(body).value]
      && (NoTextCode(input) <==> ParseSegment(body).value.kind != "text")
  {
    var seg := ParseSegment(body).value;
    NextCodeIs("", body, "");
    EscapeNothing(InText);
    RoundTrip(InText, "");
    ParseRunThenCode("", body, "", seg);
    ParseLastRun([seg], "");
    assert [] + [seg] == [seg];
  }

  lemma SoleCodeIsStableIff(body: string)
    requires ']' !in body && IsTyped(body)
    ensures Stable("" + (CQ + body + "]" + "")) <==> CodeReturns(false, ParseSegment(body).value, "")
  {
    var input := "" + (CQ + body + "]" + "");
    EscapeNothing(InText);
    RoundTrip(InText, "");
    assert NextCode("") == None && LeadingText("") == "" && FirstTyped("") == None;
    NextCodeIs("", body, "");
    hide NextCode, Unescape, ParseSegment;
    assert LeadingText(input) == "" && FirstTyped(input) == Some(TypedCode(ParseSegment(body).value, ""));
    assert CodesReturn(ParseSegment(body).value.kind == "text", "");
  }

  /** A code whose only part has no '=', such as `[CQ:face,x]`: an empty map the first time, nil the second. */
  lemma {:induction false} BarrenCodeIsUnstable(kind: string, part: string)
    requires SafeKind(kind) && kind != "text" && ',' !in part && ']' !in part && '=' !in part
    ensures
      var input := "" + (CQ + (kind + "," + part) + "]" + "");
      && NoTextCode(input) && Parse(input) == [Segment(kind, Some(map[]))]
      && Parse(Render(Parse(input))) == [Segment(kind, None)]
  {
    BarrenBody(kind, part);
    SoleCode(kind + "," + part);
    hide Parse, Render, NoTextCode, ParseSegment, NextCode;
    ParsingIsStable("" + (CQ + (kind + "," + part) + "]" + ""));
  }

  // The lemmas below take the type as a parameter required to be "text": with the literal in its place the solver would
  // unfold the scanning functions along it.

  lemma TextCodeBody(kind: string, b: string)
    requires kind == "text"
    ensures ParseSegment(kind + "," + Part(kind, Str(b))) == Some(Text(b))
    ensures ']' !in kind + "," + Part(kind, Str(b))
  {
    var part := Part(kind, Str(b));
    PartIsClean(kind, Str(b));
    SplitHead(kind, part);
    SplitHead(part, "");
    AddPart(kind, map[], kind, Str(b));
    assert ([kind] + [part])[1..] == [part] && [part][1..] == [];
    assert AddParams(kind, map[], [part]) == AddParam(kind, map[], part);
    assert forall c :: c in kind + "," + part ==> c in kind || c == ',' || c in part;
  }

  /** A text code on its own, such as `[CQ:text,text=hi]`, is stable unless its text is empty. */
  lemma {:induction false} LoneTextCode(kind: string, b: string)
    requires kind == "text"
    ensures
      var input := "" + (CQ + (kind + "," + Part(kind, Str(b))) + "]" + "");
      && !NoTextCode(input) && Parse(input) == [Text(b)]
      && (Parse(Render(Parse(input))) == Parse(input) <==> b != "")
  {
    var body := kind + "," + Part(kind, Str(b));
    var input := "" + (CQ + body + "]" + "");
    TextCodeBody(kind, b);
    SoleCode(body);
    SoleCodeIsStableIff(body);
    hide Parse, Render, ParseSegment, NoTextCode, Stable;
    ParsingIsStableIff(input);
  }

  lemma MergedPair(a: string, b: string)
    requires a != "" && b != ""
    ensures Merged([Text(a)] + [Text(b)]) == [Text(a + b)]
  {
    var chain := [Text(a)] + [Text(b)];
    assert chain[1..] == [Text(b)] && [Text(b)][1..] == [];
    assert Merged([Text(b)]) == Prepend(b, []) == [Text(b)];
  }

  lemma ParsedPair(kind: string, a: string, b: string)
    requires kind == "text" && a != ""
    ensures Parse(Escape(InText, a) + (CQ + (kind + "," + Part(kind, Str(b))) + "]" + Escape(InText, "")))
              == [Text(a)] + [Text(b)]
  {
    hide ParseSegment, NextCode;
    var body, tail := kind + "," + Part(kind, Str(b)), Escape(InText, "");
    TextCodeBody(kind, b);
    EscapedIsClean(InText, a);
    RoundTrip(InText, a);
    ParseRunThenCode(Escape(InText, a), body, tail, Text(b));
    assert AppendText([], a) == [Text(a)];
    ParseLastRun([Text(a)] + [Text(b)], "");
    assert tail + "" == tail;
    assert AppendText([Text(a)] + [Text(b)], "") == [Text(a)] + [Text(b)];
  }

  lemma RereadPair(a: string, b: string)
    requires a != "" && b != ""
    ensures Parse(Render([Text(a)] + [Text(b)])) == [Text(a + b)]
  {
    var chain := [Text(a)] + [Text(b)];
    forall i | 0 <= i < |chain| ensures Plain(chain[i]) {
      assert chain[i] == if i == 0 then Text(a) else Text(b);
    }
    PlainChainsComeBack(chain);
    MergedPair(a, b);
  }

  /** Text, then a text code: two segments the first time, one the second, so stability fails for all such inputs. */
  lemma {:induction false} TextCodeBreaksStability(kind: string, a: string, b: string) returns (input: string)
    requires kind == "text" && a != "" && b != ""
    ensures input == Escape(InText, a) + (CQ + (kind + "," + Part(kind, Str(b))) + "]" + Escape(InText, ""))
    ensures |Parse(input)| == 2 && |Parse(Render(Parse(input)))| == 1
  {
    input := Escape(InText, a) + (CQ + (kind + "," + Part(kind, Str(b))) + "]" + Escape(InText, ""));
    ParsedPair(kind, a, b);
    RereadPair(a, b);
  }

  /** The trap behind that exclusion: text after a bare text code is appended to a printed nil. */
  lemma TextAfterBareTextCode(kind: string, t: string)
    requires kind == "text" && t != ""
    ensures Parse("" + (CQ + kind + "]" + Escape(InText, t))) == [Text("<nil>" + t)]
  {
    SplitHead(kind, "");
    var bare := Segment(kind, None);
    NextCodeIs("", kind, Escape(InText, t));
    assert AppendCode([], kind) == [bare];
    ParseLastRun([bare], t);
    assert Escape(InText, t) + "" == Escape(InText, t);
  }
}

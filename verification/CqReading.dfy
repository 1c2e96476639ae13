/**
 What parsing makes of raw text that nobody rendered: text with stray brackets and ampersands, codes in the middle of
 it, and codes that are not closed.
 */
module CqReading {
  import opened Common
  import opened CqEscape
  import opened CqCode
  import opened CqLaws
  import opened SortedStrings

  // ---------------------------------------------------------------- unescaping raw text

  /** Some escape code of the place stands at position j. */
  predicate CodeAt(p: Place, s: string, j: nat) {
    j <= |s| &&
    (|| "&#91;" <= s[j..] || "&#93;" <= s[j..] || "&amp;" <= s[j..]
     || (p.InParam? && "&#44;" <= s[j..]))
  }

  lemma NoRuleAt(p: Place, s: string)
    requires s != "" && !CodeAt(p, s, 0)
    ensures Unescape(p, s) == [s[0]] + Unescape(p, s[1..])
  {
    assert s[0..] == s;
    FirstMatchUnescape(p, s);
  }

  lemma CodeAtLater(p: Place, s: string, j: nat)
    requires s != ""
    ensures CodeAt(p, s[1..], j) <==> CodeAt(p, s, j + 1)
  {
    if j + 1 <= |s| {
      assert s[1..][j..] == s[j + 1..];
    }
  }

  /** Up to the first escape code, unescaping leaves text as it is. */
  lemma {:induction false} UnescapeSkips(p: Place, a: string, rest: string)
    requires forall j: nat :: j < |a| ==> !CodeAt(p, a + rest, j)
    ensures Unescape(p, a + rest) == a + Unescape(p, rest)
    decreases |a|
  {
    hide CodeAt, Unescape;
    var s := a + rest;
    if a == "" {
      assert s == rest;
    } else {
      assert s[0] == a[0] && s[1..] == a[1..] + rest;
      NoRuleAt(p, s);
      forall j: nat | j < |a[1..]| ensures !CodeAt(p, a[1..] + rest, j) {
        CodeAtLater(p, s, j);
        assert !CodeAt(p, s, j + 1);
      }
      UnescapeSkips(p, a[1..], rest);
      assert [a[0]] + (a[1..] + Unescape(p, rest)) == a + Unescape(p, rest);
    }
  }

  /** Text without escape codes, whatever stray ampersands and brackets it has, unescapes to itself. */
  lemma PlainTextUnescapes(p: Place, s: string)
    requires forall j: nat :: !CodeAt(p, s, j)
    ensures Unescape(p, s) == s
  {
    assert s + "" == s;
    UnescapeSkips(p, s, "");
    assert s + Unescape(p, "") == s by { EscapeNothing(p); RoundTrip(p, ""); }
  }

  /** The first escape code of a text becomes its character, and unescaping goes on behind it. */
  lemma FirstCodeUnescapes(p: Place, a: string, c: char, rest: string)
    requires c in "&[]" || (p.InParam? && c == ',')
    requires forall j: nat :: j < |a| ==> !CodeAt(p, a + (Code(p, c) + rest), j)
    ensures Unescape(p, a + (Code(p, c) + rest)) == a + [c] + Unescape(p, rest)
  {
    hide Unescape, CodeAt, Code;
    UnescapeSkips(p, a, Code(p, c) + rest);
    UnescapeCode(p, c, rest);
    assert a + ([c] + Unescape(p, rest)) == a + [c] + Unescape(p, rest);
  }

  lemma {:induction false} UnescapeIsEmptyIff(p: Place, s: string)
    ensures Unescape(p, s) == "" <==> s == ""
  {
    if s != "" {
      FirstMatchUnescape(p, s);
    }
  }

  // ---------------------------------------------------------------- parts of a code

  function Join(parts: seq<string>, sep: char): string {
    if parts == [] then "" else if |parts| == 1 then parts[0] else parts[0] + [sep] + Join(parts[1..], sep)
  }

  /** Splitting cuts at every separator and nowhere else. */
  lemma {:induction false} SplitJoins(s: string, sep: char)
    ensures Join(Split(s, sep), sep) == s
    decreases |s|
  {
    var i := IndexChar(s, sep);
    if i.Some? {
      var head, tail := s[..i.value], s[i.value + 1..];
      SplitJoins(tail, sep);
      assert Split(s, sep) == [head] + Split(tail, sep);
      assert ([head] + Split(tail, sep))[1..] == Split(tail, sep);
      assert head + [sep] + tail == s;
    }
  }

  /** A parameter with a raw value: the value unescaped, under the key, which is id for qq on at. */
  lemma RawParam(kind: string, data: Data, key: string, raw: string)
    requires key != "" && '=' !in key
    ensures AddParam(kind, data, key + "=" + raw) ==
              data[(if kind == "at" && key == "qq" then "id" else key) := Str(Unescape(InParam, raw))]
  {
    var part := key + "=" + raw;
    IndexCharIs(part, '=', |key|);
    assert part[..|key|] == key && part[|key| + 1..] == raw;
  }

  // ---------------------------------------------------------------- text, then codes

  lemma AppendTextBehind(acc: Chain, chain: Chain, t: string)
    requires chain != [] || acc == [] || acc[|acc| - 1].kind != "text"
    ensures AppendText(acc + chain, t) == acc + AppendText(chain, t)
    ensures AppendText(chain, t) != [] || acc == [] || acc[|acc| - 1].kind != "text"
  {
    if chain != [] {
      assert (acc + chain)[|acc + chain| - 1] == chain[|chain| - 1];
      assert (acc + chain)[..|acc + chain| - 1] == acc + chain[..|chain| - 1];
    } else {
      assert acc + chain == acc;
    }
  }

  /** Parsing goes on the same behind whatever was parsed, unless text could still join a text before it. */
  lemma {:induction false} ParseBehind(acc: Chain, chain: Chain, input: string)
    requires chain != [] || acc == [] || acc[|acc| - 1].kind != "text"
    ensures ParseFrom(acc + chain, input) == acc + ParseFrom(chain, input)
    decreases |input|
  {
    hide AppendText, Unescape, ParseSegment, Index, NextCode;
    match NextCode(input)
    case Some(cut) =>
      var run := Unescape(InText, cut.run);
      AppendTextBehind(acc, chain, run);
      var after := AppendText(chain, run);
      if ParseSegment(cut.body).Some? {
        assert (acc + after) + [ParseSegment(cut.body).value] == acc + (after + [ParseSegment(cut.body).value]);
      } else {
        AppendTextBehind(acc, after, Unescape(InText, CQ + cut.body + "]"));
      }
      ParseBehind(acc, AppendCode(after, cut.body), cut.rest);
    case None =>
      match Index(input, CQ)
      case None => AppendTextBehind(acc, chain, Unescape(InText, input));
      case Some(start) =>
        AppendTextBehind(acc, chain, Unescape(InText, input[..start]));
        AppendTextBehind(acc, AppendText(chain, Unescape(InText, input[..start])), Unescape(InText, input[start..]));
  }

  /** No code marker in the text, however many brackets it has. */
  ghost predicate NoMarker(text: string) { forall j: nat :: !OccursAt(CQ, text, j) }

  lemma MarkerIs(s: string, j: nat)
    ensures OccursAt(CQ, s, j) <==>
              j + 4 <= |s| && s[j] == '[' && s[j + 1] == 'C' && s[j + 2] == 'Q' && s[j + 3] == ':'
  {
    if j + 4 <= |s| && s[j] == '[' && s[j + 1] == 'C' && s[j + 2] == 'Q' && s[j + 3] == ':' {
      assert s[j..][..4] == CQ;
    }
    if OccursAt(CQ, s, j) {
      assert s[j..][0] == CQ[0] && s[j..][1] == CQ[1] && s[j..][2] == CQ[2] && s[j..][3] == CQ[3];
    }
  }

  lemma IndexOccurs(s: string, sub: string)
    requires Index(s, sub).Some?
    ensures OccursAt(sub, s, Index(s, sub).value)
  {
  }

  /** The marker found behind a text without one is the one that stands there. */
  lemma {:induction false} MarkerBehindText(text: string, tail: string)
    requires NoMarker(text)
    ensures Index(text + (CQ + tail), CQ) == Some(|text|)
  {
    hide OccursAt, Index;
    var s := text + (CQ + tail);
    assert s[|text|] == CQ[0] && s[|text| + 1] == CQ[1] && s[|text| + 2] == CQ[2] && s[|text| + 3] == CQ[3];
    MarkerIs(s, |text|);
    IndexIsLeftmost(s, CQ, |text|);
    var i := Index(s, CQ).value;
    if i < |text| {
      IndexOccurs(s, CQ);
      MarkerIs(s, i);
      MarkerIs(text, i);
    }
  }

  lemma NextCodeBehindText(text: string, body: string, rest: string)
    requires NoMarker(text) && ']' !in body
    ensures NextCode(text + (CQ + (body + "]" + rest))) == Some(Cut(text, body, rest))
  {
    var s := text + (CQ + (body + "]" + rest));
    MarkerBehindText(text, body + "]" + rest);
    var code := s[|text|..];
    assert code == CQ + (body + "]" + rest);
    assert CQ + (body + "]" + rest) == CQ + body + "]" + rest;
    FirstBracket(body, rest);
    assert s[..|text|] == text && code[|CQ|..|CQ| + |body|] == body && code[|CQ| + |body| + 1..] == rest;
  }

  /** As a segment, if there is any text. */
  function AsText(text: string): Chain { if text == "" then [] else [Text(text)] }

  /**
   Raw text with no marker in it, then a code, then the rest, parses to that text unescaped, the code's segment, and the
   parse of the rest.
   */
  lemma {:induction false} TextCodeRest(text: string, body: string, rest: string)
    requires NoMarker(text) && ']' !in body && ParseSegment(body).Some? && ParseSegment(body).value.kind != "text"
    ensures Parse(text + (CQ + (body + "]" + rest))) ==
              AsText(Unescape(InText, text)) + [ParseSegment(body).value] + Parse(rest)
  {
    var seg := ParseSegment(body).value;
    var before := AsText(Unescape(InText, text)) + [seg];
    NextCodeBehindText(text, body, rest);
    hide NextCode, ParseSegment, Index, Unescape;
    assert AppendText([], Unescape(InText, text)) == AsText(Unescape(InText, text));
    assert Parse(text + (CQ + (body + "]" + rest))) == ParseFrom(before, rest);
    ParseBehind(before, [], rest);
    assert before + [] == before;
  }

  /** Raw text with no marker at all is text. */
  lemma TextAlone(text: string)
    requires NoMarker(text)
    ensures Parse(text) == AsText(Unescape(InText, text))
  {
    hide Unescape, OccursAt;
    if Index(text, CQ).Some? {
      IndexOccurs(text, CQ);
    }
    LastRound([], text);
  }

  /** A marker without a closing bracket behind it is text too, from the marker to the end. */
  lemma UnclosedCode(text: string, tail: string)
    requires NoMarker(text) && ']' !in tail
    ensures Parse(text + (CQ + tail)) == AsText(Unescape(InText, text) + Unescape(InText, CQ + tail))
  {
    var s := text + (CQ + tail);
    MarkerBehindText(text, tail);
    assert s[|text|..] == CQ + tail && s[..|text|] == text;
    assert ']' !in CQ + tail;
    LastRound([], s);
    AppendTextTwice([], Unescape(InText, text), Unescape(InText, CQ + tail));
  }

  // ---------------------------------------------------------------- the text of a rendered code

  /** A code is written with its keys in ascending order, each as `,key=` and its value escaped. */
  lemma {:induction false} CodeText(seg: Segment, keys: seq<string>)
    requires !seg.IsText() && seg.kind != "at" && Ascending(keys) && Lists(keys, seg.Items().Keys)
    ensures RenderSegment(seg) == CQ + seg.kind + Params(seg.Items(), keys) + "]"
  {
    assert Wire(seg).Items() == seg.Items() && Wire(seg).kind == seg.kind && !Wire(seg).IsText();
    AscendingIsUnique(keys, Listing(seg.Items().Keys), seg.Items().Keys);
  }

  /** One key, written out. */
  lemma OneKeyText(data: Data, key: string)
    requires key in data
    ensures Params(data, [key]) == "," + key + "=" + Escape(InParam, data[key].Sprint())
  {
    assert [key][1..] == [] && Params(data, []) == "";
    var value := Escape(InParam, data[key].Sprint());
    assert "," + (key + "=" + value) == "," + key + "=" + value;
  }

  /** The id of a mention is written as qq, whatever else the segment says about qq. */
  lemma MentionText(seg: Segment, id: Value)
    requires seg.kind == "at" && "id" in seg.Items() && seg.Items()["id"] == id && seg.Items().Keys <= {"id", "qq"}
    ensures RenderSegment(seg) == CQ + "at" + ("," + "qq" + "=" + Escape(InParam, id.Sprint())) + "]"
  {
    var wire := map["qq" := Str(id.Sprint())];
    assert "id" != "qq" by { assert "id"[0] != "qq"[0]; }
    var rest := seg.Items() - {"id"};
    assert rest.Keys <= {"qq"};
    assert rest["qq" := Str(id.Sprint())] == wire;
    assert Wire(seg) == Segment("at", Some(wire)) && wire.Keys == {"qq"};
    AscendingIsUnique(["qq"], Listing(wire.Keys), wire.Keys);
    OneKeyText(wire, "qq");
  }
}

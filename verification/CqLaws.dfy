/**
 Round trips between CQ text and message chains: what a chain becomes when it is printed and the text is parsed.  Codes
 come back with their values as strings, texts run together, and empty ones go; and whatever any input parses to, the
 text format can carry again, so the same can be said of its printing.
 */
module CqLaws {
  import opened Common
  import opened CqEscape
  import opened SortedStrings
  import opened CqCode

  // ---------------------------------------------------------------- which segments the text format can carry

  predicate SafeKind(kind: string) {
    kind != "" && ',' !in kind && ']' !in kind
  }

  predicate SafeKey(key: string) {
    key != "" && ',' !in key && '=' !in key && ']' !in key
  }

  /** A code whose type and keys hold none of the separators; nothing is asked of values or of plain text. */
  predicate Carried(seg: Segment) {
    seg.IsText() || (SafeKind(seg.kind) && forall k :: k in seg.Items() ==> SafeKey(k))
  }

  predicate AllCarried(chain: Chain) {
    forall i :: 0 <= i < |chain| ==> Carried(chain[i])
  }

  /** Every value becomes the string it prints as; on at, qq and id are one key, and id wins. */
  function Strings(kind: string, data: Data): Data {
    if kind == "at" then
      (map k | k in data && k != "qq" :: Str(data[k].Sprint()))
      + (if "id" !in data && "qq" in data then map["id" := Str(data["qq"].Sprint())] else map[])
    else map k | k in data :: Str(data[k].Sprint())
  }

  /** What a code means after a trip through text; empty data becomes nil. */
  function Reread(seg: Segment): Segment {
    Segment(seg.kind, if seg.Items() == map[] then None else Some(Strings(seg.kind, seg.Items())))
  }

  /** The meaning of a chain: texts run together, codes are reread one by one. */
  function Replay(acc: Chain, chain: Chain): Chain
    decreases |chain|
  {
    if chain == [] then acc
    else if chain[0].IsText() then Replay(AppendText(acc, chain[0].TextOf()), chain[1..])
    else Replay(acc + [Reread(chain[0])], chain[1..])
  }

  // ---------------------------------------------------------------- scanning rendered text

  lemma IndexStep(s: string)
    requires s != "" && s[0] != '['
    ensures Index(s, CQ) == match Index(s[1..], CQ) case None => None case Some(i) => Some(i + 1)
  {
    assert CQ[0] == '[';
    if |s| < |CQ| {
      assert Index(s[1..], CQ) == None;
    }
  }

  lemma {:induction false} IndexSkips(a: string, s: string)
    requires forall i :: 0 <= i < |a| ==> a[i] != '['
    ensures Index(a + s, CQ) == match Index(s, CQ) case None => None case Some(i) => Some(|a| + i)
  {
    if a == "" {
      assert a + s == s;
    } else {
      hide Index;
      assert (a + s)[0] == a[0] && (a + s)[1..] == a[1..] + s;
      IndexStep(a + s);
      IndexSkips(a[1..], s);
    }
  }

  lemma IndexCharIs(s: string, c: char, i: nat)
    requires i < |s| && s[i] == c && forall j :: 0 <= j < i ==> s[j] != c
    ensures IndexChar(s, c) == Some(i)
  {
    var found := IndexChar(s, c);
    assert found.Some?;
  }

  lemma NoCodeInEscaped(t: string)
    ensures NextCode(Escape(InText, t)) == None && Index(Escape(InText, t), CQ) == None
  {
    EscapedIsClean(InText, t);
    IndexSkips(Escape(InText, t), "");
    assert Escape(InText, t) + "" == Escape(InText, t);
  }

  lemma NextCodeIs(run: string, body: string, rest: string)
    requires forall i :: 0 <= i < |run| ==> run[i] != '['
    requires ']' !in body
    ensures NextCode(run + (CQ + body + "]" + rest)) == Some(Cut(run, body, rest))
  {
    var code := CQ + body + "]" + rest;
    var s := run + code;
    assert CQ <= code;
    assert Index(code, CQ) == Some(0);
    IndexSkips(run, code);
    assert s[|run|..] == code && s[..|run|] == run;
    FirstBracket(body, rest);
  }

  lemma FirstBracket(body: string, rest: string)
    requires ']' !in body
    ensures
      var code := CQ + body + "]" + rest;
      var end := |CQ| + |body|;
      IndexChar(code, ']') == Some(end) && code[|CQ|..end] == body && code[end + 1..] == rest
  {
    var head := CQ + body;
    forall j | 0 <= j < |head| ensures head[j] != ']' {
      assert head[j] == if j < |CQ| then CQ[j] else body[j - |CQ|];
    }
    var code := head + "]" + rest;
    IndexCharIs(code, ']', |head|);
  }

  // ---------------------------------------------------------------- rereading one code

  function Parts(data: Data, keys: seq<string>): (parts: seq<string>)
    requires forall k :: k in keys ==> k in data
    ensures |parts| == |keys|
  {
    if keys == [] then [] else [Part(keys[0], data[keys[0]])] + Parts(data, keys[1..])
  }

  lemma PartIsClean(key: string, value: Value)
    requires SafeKey(key)
    ensures ',' !in Part(key, value) && ']' !in Part(key, value)
    ensures IndexChar(Part(key, value), '=') == Some(|key|)
  {
    var part, code := Part(key, value), Escape(InParam, value.Sprint());
    EscapedIsClean(InParam, value.Sprint());
    forall i | 0 <= i < |part| ensures part[i] != ',' && part[i] != ']' {
      assert part[i] == if i < |key| then key[i] else if i == |key| then '=' else code[i - |key| - 1];
    }
    IndexCharIs(part, '=', |key|);
  }

  lemma SplitHead(a: string, b: string)
    requires ',' !in a
    ensures Split(a, ',') == [a] && Split(a + "," + b, ',') == [a] + Split(b, ',')
  {
    var s := a + "," + b;
    IndexCharIs(s, ',', |a|);
    assert s[..|a|] == a && s[|a| + 1..] == b;
  }

  lemma SplitAgain(a: string, part: string, tail: string)
    ensures a + ("," + part + tail) == a + "," + (part + tail)
  {
  }

  lemma {:induction false} SplitParams(a: string, data: Data, keys: seq<string>)
    requires ',' !in a && forall k :: k in keys ==> k in data && SafeKey(k)
    ensures Split(a + Params(data, keys), ',') == [a] + Parts(data, keys)
    decreases |keys|
  {
    if keys == [] {
      SplitHead(a, "");
      assert a + Params(data, keys) == a;
    } else {
      var part, tail := Part(keys[0], data[keys[0]]), Params(data, keys[1..]);
      PartIsClean(keys[0], data[keys[0]]);
      SplitParams(part, data, keys[1..]);
      SplitHead(a, part + tail);
      SplitAgain(a, part, tail);
    }
  }

  lemma {:induction false} ParamsHaveNoBracket(data: Data, keys: seq<string>)
    requires forall k :: k in keys ==> k in data && SafeKey(k)
    ensures ']' !in Params(data, keys)
    decreases |keys|
  {
    if keys != [] {
      PartIsClean(keys[0], data[keys[0]]);
      ParamsHaveNoBracket(data, keys[1..]);
      var part, tail := Part(keys[0], data[keys[0]]), Params(data, keys[1..]);
      assert Params(data, keys) == "," + part + tail;
      assert forall c :: c in "," + part + tail ==> c == ',' || c in part || c in tail;
    }
  }

  function ParamKey(kind: string, key: string): string {
    if kind == "at" && key == "qq" then "id" else key
  }

  lemma AddPart(kind: string, acc: Data, key: string, value: Value)
    requires SafeKey(key)
    ensures AddParam(kind, acc, Part(key, value)) == acc[ParamKey(kind, key) := Str(value.Sprint())]
  {
    PartIsClean(key, value);
    var part := Part(key, value);
    assert part[..|key|] == key && part[|key| + 1..] == Escape(InParam, value.Sprint());
    RoundTrip(InParam, value.Sprint());
  }

  predicate SafeKeys(data: Data, keys: seq<string>) {
    forall k :: k in keys ==> k in data && SafeKey(k)
  }

  lemma AddPartsStep(kind: string, acc: Data, data: Data, keys: seq<string>)
    requires SafeKeys(data, keys) && keys != []
    ensures SafeKeys(data, keys[1..])
    ensures
      var next := acc[ParamKey(kind, keys[0]) := Str(data[keys[0]].Sprint())];
      AddParams(kind, acc, Parts(data, keys)) == AddParams(kind, next, Parts(data, keys[1..]))
  {
    hide AddParam, Part;
    AddPart(kind, acc, keys[0], data[keys[0]]);
    assert Parts(data, keys)[1..] == Parts(data, keys[1..]);
  }

  /** Reading parts keeps whatever none of their keys stands for. */
  lemma {:induction false} AddPartsKeeps(kind: string, acc: Data, data: Data, keys: seq<string>, x: string)
    requires SafeKeys(data, keys) && x in acc && forall k :: k in keys ==> ParamKey(kind, k) != x
    ensures
      var r := AddParams(kind, acc, Parts(data, keys));
      x in r && r[x] == acc[x]
    decreases |keys|
  {
    if keys != [] {
      AddPartsStep(kind, acc, data, keys);
      AddPartsKeeps(kind, acc[ParamKey(kind, keys[0]) := Str(data[keys[0]].Sprint())], data, keys[1..], x);
    }
  }

  /** Reading parts adds only what their keys stand for. */
  lemma {:induction false} AddPartsAdds(kind: string, acc: Data, data: Data, keys: seq<string>, x: string)
    requires SafeKeys(data, keys) && x in AddParams(kind, acc, Parts(data, keys)) && x !in acc
    ensures exists k :: k in keys && ParamKey(kind, k) == x
    decreases |keys|
  {
    if keys != [] {
      AddPartsStep(kind, acc, data, keys);
      if x != ParamKey(kind, keys[0]) {
        AddPartsAdds(kind, acc[ParamKey(kind, keys[0]) := Str(data[keys[0]].Sprint())], data, keys[1..], x);
        var k :| k in keys[1..] && ParamKey(kind, k) == x;
        assert k in keys;
      } else {
        assert keys[0] in keys;
      }
    }
  }

  /** Reading the parts of ascending keys gives each key its value. */
  lemma {:induction false} AddPartsSets(kind: string, acc: Data, data: Data, keys: seq<string>, i: nat)
    requires Ascending(keys) && SafeKeys(data, keys) && (kind == "at" ==> "id" !in keys) && i < |keys|
    ensures
      var r := AddParams(kind, acc, Parts(data, keys));
      ParamKey(kind, keys[i]) in r && r[ParamKey(kind, keys[i])] == Str(data[keys[i]].Sprint())
    decreases |keys|
  {
    var next := acc[ParamKey(kind, keys[0]) := Str(data[keys[0]].Sprint())];
    AddPartsStep(kind, acc, data, keys);
    if i > 0 {
      AddPartsSets(kind, next, data, keys[1..], i - 1);
    } else {
      forall k | k in keys[1..] ensures ParamKey(kind, k) != ParamKey(kind, keys[0]) {
        var j :| 0 <= j < |keys[1..]| && keys[1..][j] == k;
        assert Less(keys[0], keys[j + 1]);
        Irreflexive(keys[0]);
        assert keys[0] in keys && k in keys;
      }
      AddPartsKeeps(kind, next, data, keys[1..], ParamKey(kind, keys[0]));
    }
  }

  lemma WireKeysAreSafe(seg: Segment)
    requires Carried(seg) && !seg.IsText()
    ensures forall k :: k in Wire(seg).Items() ==> SafeKey(k)
    ensures Wire(seg).kind == seg.kind && !Wire(seg).IsText()
    ensures seg.kind == "at" ==> "id" !in Wire(seg).Items()
    ensures Wire(seg).Items() == map[] <==> seg.Items() == map[]
  {
    if seg.kind == "at" && "id" in seg.Items() {
      assert "qq" in Wire(seg).Items();
    }
  }

  /** Each wire key stands for one key of the reread data, with the same printed value. */
  lemma WireMeansStrings(seg: Segment, k: string)
    requires Carried(seg) && !seg.IsText() && k in Wire(seg).Items()
    ensures
      var want := Strings(seg.kind, seg.Items());
      ParamKey(seg.kind, k) in want && want[ParamKey(seg.kind, k)] == Str(Wire(seg).Items()[k].Sprint())
  {
    WireKeysAreSafe(seg);
  }

  lemma StringsComeFromWire(seg: Segment, x: string) returns (k: string)
    requires Carried(seg) && !seg.IsText() && x in Strings(seg.kind, seg.Items())
    ensures k in Wire(seg).Items() && ParamKey(seg.kind, k) == x
  {
    k := if seg.kind == "at" && x == "id" then "qq" else x;
  }

  /** What the parameters of a rendered code are read back as. */
  ghost function ReadBack(seg: Segment): Data
    requires Carried(seg) && !seg.IsText()
  {
    var data := Wire(seg).Items();
    AddParams(seg.kind, map[], Parts(data, Listing(data.Keys)))
  }

  lemma {:induction false} ReadBackHas(seg: Segment, x: string)
    requires Carried(seg) && !seg.IsText() && x in Strings(seg.kind, seg.Items())
    ensures x in ReadBack(seg) && ReadBack(seg)[x] == Strings(seg.kind, seg.Items())[x]
  {
    WireKeysAreSafe(seg);
    var k := StringsComeFromWire(seg, x);
    hide AddParams, Parts, Wire, SafeKey, Strings;
    WireMeansStrings(seg, k);
    var keys := Listing(Wire(seg).Items().Keys);
    var i :| 0 <= i < |keys| && keys[i] == k;
    AddPartsSets(seg.kind, map[], Wire(seg).Items(), keys, i);
  }

  lemma {:induction false} ReadBackHasOnly(seg: Segment, x: string)
    requires Carried(seg) && !seg.IsText() && x in ReadBack(seg)
    ensures x in Strings(seg.kind, seg.Items())
  {
    WireKeysAreSafe(seg);
    hide AddParams, Parts, Wire, SafeKey, Strings;
    var keys := Listing(Wire(seg).Items().Keys);
    AddPartsAdds(seg.kind, map[], Wire(seg).Items(), keys, x);
    var k :| k in keys && ParamKey(seg.kind, k) == x;
    WireMeansStrings(seg, k);
  }

  lemma RereadData(seg: Segment)
    requires Carried(seg) && !seg.IsText()
    ensures ReadBack(seg) == Strings(seg.kind, seg.Items())
  {
    hide ReadBack, Strings;
    forall x | x in Strings(seg.kind, seg.Items())
      ensures x in ReadBack(seg) && ReadBack(seg)[x] == Strings(seg.kind, seg.Items())[x]
    {
      ReadBackHas(seg, x);
    }
    forall x | x in ReadBack(seg) ensures x in Strings(seg.kind, seg.Items()) {
      ReadBackHasOnly(seg, x);
    }
  }

  ghost function Body(seg: Segment): string { seg.kind + Params(Wire(seg).Items(), Listing(Wire(seg).Items().Keys)) }

  lemma ListingIsEmpty(data: Data)
    ensures Listing(data.Keys) == [] <==> data == map[]
  {
    var keys := Listing(data.Keys);
    assert keys != [] ==> keys[0] in data;
    assert forall k :: k in data ==> k in keys;
  }

  lemma BodyRoundTrip(seg: Segment)
    requires Carried(seg) && !seg.IsText()
    ensures ParseSegment(Body(seg)) == Some(Reread(seg))
  {
    WireKeysAreSafe(seg);
    var data := Wire(seg).Items();
    var keys := Listing(data.Keys);
    SplitParams(seg.kind, data, keys);
    RereadData(seg);
    ListingIsEmpty(data);
    assert ([seg.kind] + Parts(data, keys))[1..] == Parts(data, keys);
  }

  /** A rendered code, put between brackets, parses to its reread form. */
  lemma CodeRoundTrip(seg: Segment)
    requires Carried(seg) && !seg.IsText()
    ensures RenderSegment(seg) == CQ + Body(seg) + "]"
    ensures ']' !in Body(seg)
    ensures ParseSegment(Body(seg)) == Some(Reread(seg))
  {
    WireKeysAreSafe(seg);
    var data := Wire(seg).Items();
    var keys := Listing(data.Keys);
    ParamsHaveNoBracket(data, keys);
    assert forall c :: c in Body(seg) ==> c in seg.kind || c in Params(data, keys);
    assert CQ + seg.kind + Params(data, keys) == CQ + Body(seg);
    BodyRoundTrip(seg);
  }

  // ---------------------------------------------------------------- print, then parse

  lemma AppendTextTwice(acc: Chain, a: string, b: string)
    ensures AppendText(AppendText(acc, a), b) == AppendText(acc, a + b)
  {
    if a == "" {
      assert a + b == b;
    } else if b == "" {
      assert a + b == a;
    } else {
      var once := AppendText(acc, a);
      var last := once[|once| - 1];
      assert last.kind == "text" && last.Items()["text"].Str?;
      var before := last.Items()["text"].text;
      if acc != [] && acc[|acc| - 1].kind == "text" {
        var items := acc[|acc| - 1].Items();
        var start := if "text" in items then items["text"].Sprint() else "<nil>";
        assert (start + a) + b == start + (a + b);
        assert items["text" := Str(start + a)]["text" := Str(start + a + b)] == items["text" := Str(start + (a + b))];
        assert once[..|once| - 1] == acc[..|acc| - 1];
      } else {
        assert once[..|once| - 1] == acc;
        assert map["text" := Str(a)]["text" := Str(a + b)] == map["text" := Str(a + b)];
      }
    }
  }

  lemma {:induction false} ParseRunAndCode(acc: Chain, t: string, seg: Segment, tail: string)
    requires Carried(seg) && !seg.IsText()
    ensures ParseFrom(acc, Escape(InText, t) + (RenderSegment(seg) + tail)) ==
              ParseFrom(AppendText(acc, t) + [Reread(seg)], tail)
  {
    CodeRoundTrip(seg);
    EscapedIsClean(InText, t);
    RoundTrip(InText, t);
    NextCodeIs(Escape(InText, t), Body(seg), tail);
  }

  /** Two adjacent texts are rendered as one. */
  lemma RenderedTextsJoin(t: string, seg: Segment, tail: string)
    requires seg.IsText()
    ensures Escape(InText, t) + (RenderSegment(seg) + tail) == Escape(InText, t + seg.TextOf()) + tail
  {
    EscapeAppend(InText, t, seg.TextOf());
    assert Wire(seg) == seg;
  }

  lemma ParseLastRun(acc: Chain, t: string)
    ensures ParseFrom(acc, Escape(InText, t) + "") == AppendText(acc, t)
  {
    NoCodeInEscaped(t);
    RoundTrip(InText, t);
    assert Escape(InText, t) + "" == Escape(InText, t);
  }

  lemma {:induction false} ParseRendered(acc: Chain, t: string, chain: Chain)
    requires AllCarried(chain)
    ensures ParseFrom(acc, Escape(InText, t) + Render(chain)) == Replay(AppendText(acc, t), chain)
    decreases |chain|
  {
    if chain == [] {
      ParseLastRun(acc, t);
    } else {
      var seg, tail := chain[0], Render(chain[1..]);
      if seg.IsText() {
        RenderedTextsJoin(t, seg, tail);
        ParseRendered(acc, t + seg.TextOf(), chain[1..]);
        AppendTextTwice(acc, t, seg.TextOf());
      } else {
        ParseRunAndCode(acc, t, seg, tail);
        ParseRendered(AppendText(acc, t) + [Reread(seg)], "", chain[1..]);
        assert Escape(InText, "") + tail == tail;
      }
    }
  }

  /** Print, then parse: any chain the format can carry comes back as its replay. */
  lemma {:induction false} PrintThenParse(chain: Chain)
    requires AllCarried(chain)
    ensures Parse(Render(chain)) == Replay([], chain)
  {
    ParseRendered([], "", chain);
    assert Escape(InText, "") + Render(chain) == Render(chain);
  }

  // ---------------------------------------------------------------- what plain chains come back as

  /** Text holding only a nonnil string text, or a code with string values; on at, the id key only. */
  predicate Plain(seg: Segment) {
    if seg.kind == "text" then seg.IsText() && seg == Text(seg.TextOf())
    else
      && SafeKind(seg.kind) && (forall k :: k in seg.Items() ==> SafeKey(k) && seg.Items()[k].Str?)
      && (seg.kind == "at" ==> "qq" !in seg.Items())
  }

  predicate AllPlain(chain: Chain) {
    forall i :: 0 <= i < |chain| ==> Plain(chain[i])
  }

  function Tidy(seg: Segment): Segment { if seg.data == Some(map[]) then seg.(data := None) else seg }

  function Prepend(t: string, chain: Chain): Chain {
    if t == "" then chain
    else if chain != [] && chain[0].IsText() then [Text(t + chain[0].TextOf())] + chain[1..]
    else [Text(t)] + chain
  }

  /** Empty texts dropped, adjacent texts merged, everything else in place. */
  function Merged(chain: Chain): Chain {
    if chain == [] then []
    else if chain[0].IsText() then Prepend(chain[0].TextOf(), Merged(chain[1..]))
    else [Tidy(chain[0])] + Merged(chain[1..])
  }

  predicate StartsPlainly(chain: Chain) {
    chain != [] && chain[0].kind == "text" ==> Plain(chain[0])
  }

  lemma PrependTwice(t: string, u: string, chain: Chain)
    requires StartsPlainly(chain)
    ensures Prepend(t, Prepend(u, chain)) == Prepend(t + u, chain) && StartsPlainly(Prepend(t, chain))
  {
    if u == "" {
      assert t + u == t;
    } else if t == "" {
      assert t + u == u;
    } else if chain != [] && chain[0].IsText() {
      assert (t + u) + chain[0].TextOf() == t + (u + chain[0].TextOf());
    }
  }

  lemma RereadPlain(seg: Segment)
    requires Plain(seg) && !seg.IsText()
    ensures Carried(seg) && Reread(seg) == Tidy(seg) && Tidy(seg).kind != "text"
  {
    var r := Strings(seg.kind, seg.Items());
    assert r == seg.Items() by {
      assert forall k :: k in seg.Items() ==> k in r && r[k] == seg.Items()[k];
      assert forall k :: k in r ==> k in seg.Items();
    }
  }

  lemma {:induction false} MergedStartsPlainly(chain: Chain)
    requires AllPlain(chain)
    ensures StartsPlainly(Merged(chain))
  {
    if chain != [] {
      assert Plain(chain[0]);
      MergedStartsPlainly(chain[1..]);
      if chain[0].IsText() {
        PrependTwice(chain[0].TextOf(), "", Merged(chain[1..]));
      } else {
        RereadPlain(chain[0]);
      }
    }
  }

  lemma AppendBeforeCode(acc: Chain, t: string, code: Segment, rest: Chain)
    requires code.kind != "text" && (acc != [] ==> acc[|acc| - 1].kind != "text")
    ensures (AppendText(acc, t) + [code]) + rest == acc + Prepend(t, [code] + rest)
  {
  }

  lemma {:induction false} ReplayMerges(acc: Chain, t: string, chain: Chain)
    requires AllPlain(chain) && (acc != [] ==> acc[|acc| - 1].kind != "text")
    ensures Replay(AppendText(acc, t), chain) == acc + Prepend(t, Merged(chain))
    decreases |chain|
  {
    if chain != [] {
      var seg, rest := chain[0], chain[1..];
      assert Plain(seg);
      MergedStartsPlainly(rest);
      if seg.IsText() {
        ReplayMerges(acc, t + seg.TextOf(), rest);
        AppendTextTwice(acc, t, seg.TextOf());
        PrependTwice(t, seg.TextOf(), Merged(rest));
      } else {
        RereadPlain(seg);
        ReplayMerges(AppendText(acc, t) + [Tidy(seg)], "", rest);
        AppendBeforeCode(acc, t, Tidy(seg), Merged(rest));
      }
    }
  }

  /** Print, then parse: a plain chain comes back with its texts merged, and nothing else changed. */
  lemma {:induction false} PlainChainsComeBack(chain: Chain)
    requires AllPlain(chain)
    ensures Parse(Render(chain)) == Merged(chain)
  {
    forall i | 0 <= i < |chain| ensures Carried(chain[i]) {
      assert Plain(chain[i]);
    }
    PrintThenParse(chain);
    ReplayMerges([], "", chain);
  }

  // ---------------------------------------------------------------- parse, print, parse

  predicate SafeData(kind: string, data: Data) {
    forall k :: k in data ==> SafeKey(k) && data[k].Str? && (kind == "at" ==> k != "qq")
  }

  lemma AddParamKeepsKeysSafe(kind: string, data: Data, part: string)
    requires ',' !in part && ']' !in part
    requires SafeData(kind, data)
    ensures SafeData(kind, AddParam(kind, data, part))
  {
    var i := IndexChar(part, '=');
    if i.Some? && i.value != 0 {
      assert forall c :: c in part[..i.value] ==> c in part;
      assert SafeKey(part[..i.value]);
    }
  }

  lemma {:induction false} AddParamsKeepsKeysSafe(kind: string, data: Data, parts: seq<string>)
    requires forall i :: 0 <= i < |parts| ==> ',' !in parts[i] && ']' !in parts[i]
    requires SafeData(kind, data)
    ensures SafeData(kind, AddParams(kind, data, parts))
    decreases |parts|
  {
    if parts != [] {
      hide AddParam, SafeData;
      AddParamKeepsKeysSafe(kind, data, parts[0]);
      AddParamsKeepsKeysSafe(kind, AddParam(kind, data, parts[0]), parts[1..]);
    }
  }

  /** Whatever a parsed code holds can be carried by the format again. */
  lemma ParsedSegmentIsCarried(body: string)
    requires ']' !in body && ParseSegment(body).Some?
    ensures
      var seg := ParseSegment(body).value;
      Carried(seg) && (seg.kind != "text" ==> Plain(seg))
  {
    var parts := Split(body, ',');
    assert forall i :: 0 <= i < |parts| ==> ']' !in parts[i];
    AddParamsKeepsKeysSafe(parts[0], map[], parts[1..]);
  }

  lemma BodyHasNoBracket(input: string)
    requires NextCode(input).Some?
    ensures ']' !in NextCode(input).value.body
  {
    hide Index, IndexChar;
    var code := input[Index(input, CQ).value..];
    var end := IndexChar(code, ']').value;
    OpenBeforeClose(code, end);
    forall i | 0 <= i < |code[|CQ|..end]| ensures code[|CQ|..end][i] != ']' {
      assert code[|CQ|..end][i] == code[|CQ| + i];
    }
  }

  lemma AppendTextIsCarried(chain: Chain, t: string)
    requires AllCarried(chain)
    ensures AllCarried(AppendText(chain, t))
  {
  }

  lemma {:induction false} ParsedIsCarried(acc: Chain, input: string)
    requires AllCarried(acc)
    ensures AllCarried(ParseFrom(acc, input))
    decreases |input|
  {
    match NextCode(input)
    case Some(cut) =>
      var chain := AppendText(acc, Unescape(InText, cut.run));
      AppendTextIsCarried(acc, Unescape(InText, cut.run));
      BodyHasNoBracket(input);
      if ParseSegment(cut.body).Some? {
        ParsedSegmentIsCarried(cut.body);
      } else {
        AppendTextIsCarried(chain, Unescape(InText, CQ + cut.body + "]"));
      }
      ParsedIsCarried(AppendCode(chain, cut.body), cut.rest);
    case None =>
      match Index(input, CQ)
      case None => AppendTextIsCarried(acc, Unescape(InText, input));
      case Some(start) =>
        AppendTextIsCarried(acc, Unescape(InText, input[..start]));
        AppendTextIsCarried(AppendText(acc, Unescape(InText, input[..start])), Unescape(InText, input[start..]));
  }

  /** For every input string at all, printing a parse and parsing again gives the replay of that parse. */
  lemma {:induction false} ParsePrintParse(input: string)
    ensures Parse(Render(Parse(input))) == Replay([], Parse(input))
  {
    ParsedIsCarried([], input);
    PrintThenParse(Parse(input));
  }
}

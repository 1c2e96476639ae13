/** The CQ-code message format of OneBot 11: parsing text into a chain of segments and rendering a chain as text. */
module CqCode {
  import opened Common
  import opened CqEscape
  import opened SortedStrings

  /** A segment value: a Go string, or anything else, known here by the text that `fmt.Sprint` gives for it. */
  datatype Value = Str(text: string) | Other(rendered: string) {
    function Sprint(): string { if Str? then text else rendered }
  }

  type Data = map<string, Value>

  /** Data is None for Go's nil map, which the parser distinguishes from an empty one. */
  datatype Segment = Segment(kind: string, data: Option<Data>) {
    function Items(): Data { if data.Some? then data.value else map[] }
    /** A segment that is rendered as plain text: kind text with a string under "text". */
    predicate IsText() { kind == "text" && "text" in Items() && Items()["text"].Str? }
    function TextOf(): string
      requires IsText()
    {
      Items()["text"].text
    }
  }

  type Chain = seq<Segment>

  const CQ := "[CQ:"

  function Text(text: string): Segment { Segment("text", Some(map["text" := Str(text)])) }

  // ---------------------------------------------------------------- scanning helpers of the Go library

  /** A position at which sub occurs in s; `IndexIsLeftmost` says that it is the leftmost. */
  function Index(s: string, sub: string): (i: Option<nat>)
    ensures i.Some? ==> i.value + |sub| <= |s| && sub <= s[i.value..]
  {
    if |s| < |sub| then None
    else if sub <= s then Some(0)
    else if s == "" then None
    else match Index(s[1..], sub)
      case None => None
      case Some(i) => Some(i + 1)
  }

  predicate OccursAt(sub: string, s: string, j: nat) { j <= |s| && sub <= s[j..] }

  lemma OccursLater(sub: string, s: string, j: nat)
    requires s != "" && !(sub <= s)
    ensures OccursAt(sub, s, j) <==> j >= 1 && OccursAt(sub, s[1..], j - 1)
  {
    if 1 <= j <= |s| {
      assert s[j..] == s[1..][j - 1..];
    } else if j == 0 {
      assert s[0..] == s;
    }
  }

  /** Nothing occurs before the position found, and nothing at all if none is found. */
  lemma {:induction false} IndexIsLeftmost(s: string, sub: string, j: nat)
    requires OccursAt(sub, s, j)
    ensures Index(s, sub).Some? && Index(s, sub).value <= j
    decreases |s|
  {
    if s != "" && !(sub <= s) {
      OccursLater(sub, s, j);
      IndexIsLeftmost(s[1..], sub, j - 1);
    }
  }

  function IndexChar(s: string, c: char): (i: Option<nat>)
    ensures match i
      case None => c !in s
      case Some(i) => i < |s| && s[i] == c && forall j :: 0 <= j < i ==> s[j] != c
  {
    if s == "" then None
    else if s[0] == c then Some(0)
    else match IndexChar(s[1..], c)
      case None => None
      case Some(i) => assert forall j :: 1 <= j < i + 1 ==> s[j] == s[1..][j - 1]; Some(i + 1)
  }

  function Split(s: string, sep: char): (parts: seq<string>)
    ensures parts != []
    ensures forall i :: 0 <= i < |parts| ==> sep !in parts[i]
    ensures forall i, c :: 0 <= i < |parts| && c in parts[i] ==> c in s
    decreases |s|
  {
    match IndexChar(s, sep)
    case None => [s]
    case Some(i) =>
      assert forall c :: c in s[..i] || c in s[i + 1..] ==> c in s;
      [s[..i]] + Split(s[i + 1..], sep)
  }

  // ---------------------------------------------------------------- parsing

  /** Adds text to a chain, extending a final text segment in place.  A missing "text" value prints as "<nil>". */
  function AppendText(chain: Chain, text: string): Chain {
    if text == "" then chain
    else if chain != [] && chain[|chain| - 1].kind == "text" then
      var last := chain[|chain| - 1];
      var before := if "text" in last.Items() then last.Items()["text"].Sprint() else "<nil>";
      chain[..|chain| - 1] + [Segment("text", Some(last.Items()["text" := Str(before + text)]))]
    else chain + [Text(text)]
  }

  /** One `key=value` part of a code: parts without '=' or with an empty key are skipped, and qq means id on at. */
  function AddParam(kind: string, data: Data, part: string): Data {
    match IndexChar(part, '=')
    case None => data
    case Some(i) =>
      if i == 0 then data
      else
        var key := if kind == "at" && part[..i] == "qq" then "id" else part[..i];
        data[key := Str(Unescape(InParam, part[i + 1..]))]
  }

  function AddParams(kind: string, data: Data, parts: seq<string>): Data
    decreases |parts|
  {
    if parts == [] then data else AddParams(kind, AddParam(kind, data, parts[0]), parts[1..])
  }

  function ParseSegment(body: string): Option<Segment> {
    var parts := Split(body, ',');
    if parts[0] == "" then None
    else if |parts| == 1 then Some(Segment(parts[0], None))
    else Some(Segment(parts[0], Some(AddParams(parts[0], map[], parts[1..]))))
  }

  lemma OpenBeforeClose(code: string, end: nat)
    requires CQ <= code && IndexChar(code, ']') == Some(end)
    ensures |CQ| <= end < |code|
  {
    assert code[0] == CQ[0] && code[1] == CQ[1] && code[2] == CQ[2] && code[3] == CQ[3];
  }

  /** What one parser step reads: a text run, the body of the code after it, and the rest of the input. */
  datatype Cut = Cut(run: string, body: string, rest: string)

  /** The next code of the input, if an opening marker and a closing bracket after it remain. */
  function NextCode(input: string): (cut: Option<Cut>)
    ensures cut.Some? ==> |cut.value.rest| < |input|
  {
    match Index(input, CQ)
    case None => None
    case Some(start) =>
      var code := input[start..];
      match IndexChar(code, ']')
      case None => None
      case Some(end) =>
        OpenBeforeClose(code, end);
        Some(Cut(input[..start], code[|CQ|..end], code[end + 1..]))
  }

  /** What a code contributes: its segment, or its own raw text when it has no type. */
  function AppendCode(chain: Chain, body: string): Chain {
    match ParseSegment(body)
    case Some(seg) => chain + [seg]
    case None => AppendText(chain, Unescape(InText, CQ + body + "]"))
  }

  /** The chain built from the rest of the input, given the chain so far. */
  function ParseFrom(chain: Chain, input: string): Chain
    decreases |input|
  {
    match NextCode(input)
    case Some(cut) =>
      ParseFrom(AppendCode(AppendText(chain, Unescape(InText, cut.run)), cut.body), cut.rest)
    case None =>
      match Index(input, CQ)
      case None => AppendText(chain, Unescape(InText, input))
      case Some(start) =>
        AppendText(AppendText(chain, Unescape(InText, input[..start])), Unescape(InText, input[start..]))
  }

  function Parse(input: string): Chain { ParseFrom([], input) }

  method ParseCQSegment(body: string) returns (seg: Option<Segment>)
    ensures seg == ParseSegment(body)
  {
    var parts := Split(body, ',');
    if parts[0] == "" {
      return None;
    }
    if |parts| == 1 {
      return Some(Segment(parts[0], None));
    }
    var data: Data := map[];
    for i := 1 to |parts|
      invariant AddParams(parts[0], map[], parts[1..]) == AddParams(parts[0], data, parts[i..])
    {
      data := AddParam(parts[0], data, parts[i]);
    }
    seg := Some(Segment(parts[0], Some(data)));
  }

  lemma BracketedBody(code: string, end: nat)
    requires CQ <= code && |CQ| <= end < |code| && code[end] == ']'
    ensures code[..end + 1] == CQ + code[|CQ|..end] + "]"
  {
    assert code[..end + 1] == code[..|CQ|] + code[|CQ|..end] + [code[end]];
    assert code[..|CQ|] == CQ;
  }

  /** One round of the parser's loop, when it finds a code. */
  lemma ParseRound(chain: Chain, input: string, start: nat, end: nat)
    requires Index(input, CQ) == Some(start) && IndexChar(input[start..], ']') == Some(end)
    ensures end >= |CQ| && input[start..][..end + 1] == CQ + input[start..][|CQ|..end] + "]"
    ensures ParseFrom(chain, input) ==
              ParseFrom(AppendCode(AppendText(chain, Unescape(InText, input[..start])), input[start..][|CQ|..end]),
                        input[start..][end + 1..])
  {
    var code := input[start..];
    OpenBeforeClose(code, end);
    BracketedBody(code, end);
  }

  lemma NothingToAppend(chain: Chain)
    ensures AppendText(chain, Unescape(InText, "")) == chain
  {
  }

  /** The last round of the parser's loop, when no code is left. */
  lemma LastRound(chain: Chain, input: string)
    ensures Index(input, CQ) == None ==> ParseFrom(chain, input) == AppendText(chain, Unescape(InText, input))
    ensures Index(input, CQ).Some? && IndexChar(input[Index(input, CQ).value..], ']') == None ==>
              var start := Index(input, CQ).value;
              ParseFrom(chain, input) ==
                AppendText(AppendText(chain, Unescape(InText, input[..start])), Unescape(InText, input[start..]))
  {
  }

  lemma NothingToParse(chain: Chain)
    ensures ParseFrom(chain, "") == chain
  {
  }

  method ParseCQ(text: string) returns (chain: Chain)
    ensures chain == Parse(text)
  {
    hide Index, IndexChar, Unescape, AppendText, ParseSegment, ParseFrom, NextCode;
    NothingToParse([]);
    chain := [];
    if text == "" {
      return;
    }
    var input := text;
    while |input| > 0
      invariant ParseFrom(chain, input) == Parse(text)
      decreases |input|
    {
      ghost var before, all := chain, input;
      LastRound(before, all);
      var start := Index(input, CQ);
      if start.None? {
        chain := AppendText(chain, Unescape(InText, input));
        break;
      }
      if start.value > 0 {
        chain := AppendText(chain, Unescape(InText, input[..start.value]));
        input := input[start.value..];
      }
      NothingToAppend(before);
      assert chain == AppendText(before, Unescape(InText, all[..start.value])) && input == all[start.value..];
      var end := IndexChar(input, ']');
      if end.None? {
        chain := AppendText(chain, Unescape(InText, input));
        break;
      }
      ParseRound(before, all, start.value, end.value);
      var body := input[|CQ|..end.value];
      var seg := ParseCQSegment(body);
      if seg.Some? {
        chain := chain + [seg.value];
      } else {
        chain := AppendText(chain, Unescape(InText, input[..end.value + 1]));
      }
      input := input[end.value + 1..];
    }
    if |input| == 0 {
      NothingToParse(chain);
    }
  }

  // ---------------------------------------------------------------- rendering

  /** The wire form names the mentioned user qq instead of id. */
  function Wire(seg: Segment): Segment {
    if seg.kind == "at" && "id" in seg.Items() then
      Segment("at", Some((seg.Items() - {"id"})["qq" := Str(seg.Items()["id"].Sprint())]))
    else seg.(data := if seg.Items() == map[] then None else seg.data)
  }

  function Part(key: string, value: Value): string { key + "=" + Escape(InParam, value.Sprint()) }

  function Params(data: Data, keys: seq<string>): string
    requires forall k :: k in keys ==> k in data
  {
    if keys == [] then "" else "," + Part(keys[0], data[keys[0]]) + Params(data, keys[1..])
  }

  ghost function RenderWire(wire: Segment): string {
    if wire.IsText() then Escape(InText, wire.TextOf())
    else CQ + wire.kind + Params(wire.Items(), Listing(wire.Items().Keys)) + "]"
  }

  ghost function RenderSegment(seg: Segment): string { RenderWire(Wire(seg)) }

  ghost function Render(chain: Chain): string {
    if chain == [] then "" else RenderSegment(chain[0]) + Render(chain[1..])
  }

  lemma {:induction false} RenderSnoc(chain: Chain, seg: Segment)
    ensures Render(chain + [seg]) == Render(chain) + RenderSegment(seg)
  {
    if chain == [] {
      assert chain + [seg] == [seg] && [seg][1..] == [];
    } else {
      assert (chain + [seg])[1..] == chain[1..] + [seg];
      RenderSnoc(chain[1..], seg);
    }
  }

  lemma {:induction false} ParamsSnoc(data: Data, keys: seq<string>, k: string)
    requires k in data && forall k :: k in keys ==> k in data
    ensures Params(data, keys + [k]) == Params(data, keys) + ("," + Part(k, data[k]))
  {
    if keys == [] {
      assert keys + [k] == [k] && [k][1..] == [];
    } else {
      assert (keys + [k])[1..] == keys[1..] + [k];
      ParamsSnoc(data, keys[1..], k);
    }
  }

  method ToWireChain(chain: Chain) returns (wire: Chain)
    ensures |wire| == |chain| && forall i :: 0 <= i < |chain| ==> wire[i] == Wire(chain[i])
  {
    wire := [];
    for i := 0 to |chain|
      invariant |wire| == i && forall j :: 0 <= j < i ==> wire[j] == Wire(chain[j])
    {
      wire := wire + [Wire(chain[i])];
    }
  }

  /** The parameters of a code, its keys collected and sorted. */
  method RenderParams(data: Data) returns (b: string)
    ensures b == Params(data, Listing(data.Keys))
  {
    hide Part, Ascending;
    var keys := Sort(data.Keys);
    AscendingIsUnique(keys, Listing(data.Keys), data.Keys);
    b := "";
    for n := 0 to |keys|
      invariant b == Params(data, keys[..n])
    {
      ParamsSnoc(data, keys[..n], keys[n]);
      assert keys[..n] + [keys[n]] == keys[..n + 1];
      b := b + ("," + Part(keys[n], data[keys[n]]));
    }
    assert keys[..|keys|] == keys;
  }

  method CQString(chain: Chain) returns (b: string)
    ensures b == Render(chain)
  {
    hide RenderWire, Wire;
    b := "";
    var wire := ToWireChain(chain);
    for i := 0 to |wire|
      invariant b == Render(chain[..i])
    {
      RenderSnoc(chain[..i], chain[i]);
      assert chain[..i] + [chain[i]] == chain[..i + 1];
      var piece := RenderWireSegment(wire[i]);
      b := b + piece;
    }
    assert chain[..|chain|] == chain;
  }

  method RenderWireSegment(seg: Segment) returns (piece: string)
    ensures piece == RenderWire(seg)
  {
    if seg.IsText() {
      return Escape(InText, seg.TextOf());
    }
    var params := RenderParams(seg.Items());
    piece := CQ + seg.kind + params + "]";
  }
}

/** Splitting a command line into arguments, with quotes and backslashes. */
module SplitArgv {
  import opened Common

  /** Go's `unicode.IsSpace`. */
  predicate IsSpace(c: char) {
    var n := c as int;
    || 0x9 <= n <= 0xD || n == 0x20 || n == 0x85 || n == 0xA0 || n == 0x1680 || 0x2000 <= n <= 0x200A
    || n == 0x2028 || n == 0x2029 || n == 0x202F || n == 0x205F || n == 0x3000
  }

  function TrimSpace(s: string): string
    decreases |s|
  {
    if s == "" then ""
    else if IsSpace(s[0]) then TrimSpace(s[1..])
    else if IsSpace(s[|s| - 1]) then TrimSpace(s[..|s| - 1])
    else s
  }

  /** The variables of the scan. */
  datatype Scan = Scan(out: seq<string>, word: string, quote: Option<char>, escaped: bool, seen: bool) {
    function Flush(): Scan { if seen then this.(out := out + [word], word := "", seen := false) else this }
    function Write(r: char): Scan { this.(word := word + [r], seen := true) }
  }

  const START := Scan([], "", None, false, false)

  predicate IsSeparator(r: char) { r == ' ' || r == '\t' || r == '\n' || r == '\r' }

  function Step(s: Scan, r: char): Scan {
    if s.escaped then s.Write(r).(escaped := false)
    else if r == '\\' then s.(escaped := true, seen := true)
    else if s.quote.Some? then
      if r == s.quote.value then s.(quote := None, seen := true) else s.Write(r)
    else if r == '\'' || r == '"' then s.(quote := Some(r), seen := true)
    else if IsSeparator(r) then s.Flush()
    else s.Write(r)
  }

  function Steps(s: Scan, input: string): Scan
    decreases |input|
  {
    if input == "" then s else Steps(Step(s, input[0]), input[1..])
  }

  /** A backslash left dangling at the end stands for itself. */
  function Finish(s: Scan): seq<string> {
    (if s.escaped then s.(word := s.word + ['\\']) else s).Flush().out
  }

  function Split(input: string): seq<string> { Finish(Steps(START, TrimSpace(input))) }

  method SplitArgv(input: string) returns (out: seq<string>)
    ensures out == Split(input)
  {
    out := [];
    var b := "";
    var quote: Option<char> := None;
    var escaped, seen := false, false;
    var runes := TrimSpace(input);
    for i := 0 to |runes|
      invariant Steps(Scan(out, b, quote, escaped, seen), runes[i..]) == Steps(START, runes)
    {
      var r := runes[i];
      if escaped {
        b, seen, escaped := b + [r], true, false;
      } else if r == '\\' {
        escaped, seen := true, true;
      } else if quote.Some? {
        if r == quote.value {
          quote, seen := None, true;
        } else {
          b, seen := b + [r], true;
        }
      } else if r == '\'' || r == '"' {
        quote, seen := Some(r), true;
      } else if r == ' ' || r == '\t' || r == '\n' || r == '\r' {
        if seen {
          out, b, seen := out + [b], "", false;
        }
      } else {
        b, seen := b + [r], true;
      }
    }
    if escaped {
      b := b + ['\\'];
    }
    if seen {
      out := out + [b];
    }
  }

  // ---------------------------------------------------------------- how an argument can be spelled

  predicate IsQuote(q: char) { q == '\'' || q == '"' }

  /** A character that stands for itself outside quotes. */
  predicate IsPlain(c: char) { !IsQuote(c) && !IsSeparator(c) && c != '\\' }

  /** A part of an argument: plain characters, one character behind a backslash, or text between quote marks. */
  datatype Piece = Plain(text: string) | Escape(c: char) | Quote(q: char, quoted: string) {
    predicate Valid() {
      match this
      case Plain(text) => text != "" && forall c :: c in text ==> IsPlain(c)
      case Escape(_) => true
      case Quote(q, _) => IsQuote(q)
    }

    function Spelled(): string {
      match this
      case Plain(text) => text
      case Escape(c) => ['\\'] + [c]
      case Quote(q, quoted) => [q] + Masked(q, quoted) + [q]
    }

    function Meant(): string {
      match this
      case Plain(text) => text
      case Escape(c) => [c]
      case Quote(_, quoted) => quoted
    }
  }

  function MaskedChar(q: char, c: char): string {
    if c == q || c == '\\' then ['\\'] + [c] else [c]
  }

  /** The text with a backslash before each of its quote marks and each backslash. */
  function Masked(q: char, text: string): string {
    if text == "" then ""
    else MaskedChar(q, text[0]) + Masked(q, text[1..])
  }

  type Word = seq<Piece>

  predicate ValidWord(word: Word) { word != [] && forall piece :: piece in word ==> piece.Valid() }

  function Spelled(word: Word): string {
    if word == [] then "" else word[0].Spelled() + Spelled(word[1..])
  }

  function Meant(word: Word): string {
    if word == [] then "" else word[0].Meant() + Meant(word[1..])
  }

  predicate ValidGap(gap: string) { gap != "" && forall c :: c in gap ==> IsSeparator(c) }

  /** Words with a gap between each and the next. */
  function Line(words: seq<Word>, gaps: seq<string>): string
    requires |words| == |gaps| + 1
  {
    if gaps == [] then Spelled(words[0])
    else Spelled(words[0]) + gaps[0] + Line(words[1..], gaps[1..])
  }

  predicate ValidLine(words: seq<Word>, gaps: seq<string>) {
    |words| == |gaps| + 1 && (forall w :: w in words ==> ValidWord(w)) && forall g :: g in gaps ==> ValidGap(g)
  }

  // ---------------------------------------------------------------- scanning a line

  lemma {:induction false} StepsAppend(s: Scan, a: string, b: string)
    ensures Steps(s, a + b) == Steps(Steps(s, a), b)
    decreases |a|
  {
    if a == "" {
      assert a + b == b;
    } else {
      assert (a + b)[1..] == a[1..] + b;
      StepsAppend(Step(s, a[0]), a[1..], b);
    }
  }

  lemma ScanOne(s: Scan, r: char)
    ensures Steps(s, [r]) == Step(s, r)
  {
    assert [r][1..] == "";
  }

  lemma ScanMaskedChar(s: Scan, q: char, c: char)
    requires IsQuote(q) && s.quote == Some(q) && !s.escaped && s.seen
    ensures Steps(s, MaskedChar(q, c)) == s.(word := s.word + [c])
  {
    if c == q || c == '\\' {
      StepsAppend(s, ['\\'], [c]);
      ScanOne(s, '\\');
      ScanOne(Step(s, '\\'), c);
    } else {
      ScanOne(s, c);
    }
  }

  lemma {:induction false} ScanMasked(s: Scan, q: char, text: string)
    requires IsQuote(q) && s.quote == Some(q) && !s.escaped && s.seen
    ensures Steps(s, Masked(q, text)) == s.(word := s.word + text)
    decreases |text|
  {
    if text == "" {
      assert s.word + text == s.word;
    } else {
      var next := s.(word := s.word + [text[0]]);
      StepsAppend(s, MaskedChar(q, text[0]), Masked(q, text[1..]));
      ScanMaskedChar(s, q, text[0]);
      ScanMasked(next, q, text[1..]);
      assert next.word + text[1..] == s.word + text;
    }
  }

  lemma {:induction false} ScanPlain(s: Scan, text: string)
    requires s.quote.None? && !s.escaped && forall c :: c in text ==> IsPlain(c)
    ensures Steps(s, text) == s.(word := s.word + text, seen := s.seen || text != "")
    decreases |text|
  {
    if text == "" {
      assert s.word + text == s.word;
    } else {
      var next := s.Write(text[0]);
      assert text[0] in text && Step(s, text[0]) == next;
      ScanPlain(next, text[1..]);
      assert next.word + text[1..] == s.word + text;
    }
  }

  lemma ScanPiece(s: Scan, piece: Piece)
    requires s.quote.None? && !s.escaped && piece.Valid()
    ensures Steps(s, piece.Spelled()) == s.(word := s.word + piece.Meant(), seen := true)
  {
    match piece
    case Plain(text) => ScanPlain(s, text);
    case Escape(c) =>
      StepsAppend(s, ['\\'], [c]);
      ScanOne(s, '\\');
      ScanOne(Step(s, '\\'), c);
    case Quote(q, text) =>
      var open := s.(quote := Some(q), seen := true);
      StepsAppend(s, [q] + Masked(q, text), [q]);
      StepsAppend(s, [q], Masked(q, text));
      ScanOne(s, q);
      ScanMasked(open, q, text);
      ScanOne(open.(word := open.word + text), q);
  }

  lemma ScanNothing(s: Scan)
    ensures Steps(s, "") == s
  {
  }

  lemma {:induction false} ScanWord(s: Scan, word: Word)
    requires s.quote.None? && !s.escaped && forall piece :: piece in word ==> piece.Valid()
    ensures Steps(s, Spelled(word)) == s.(word := s.word + Meant(word), seen := s.seen || word != [])
    decreases |word|
  {
    hide Steps, Piece.Spelled, Piece.Meant, Piece.Valid, Masked;
    if word == [] {
      ScanNothing(s);
      assert s.word + Meant(word) == s.word;
    } else {
      var first, rest := word[0].Meant(), Meant(word[1..]);
      var next := s.(word := s.word + first, seen := true);
      assert word[0] in word;
      ScanPiece(s, word[0]);
      StepsAppend(s, word[0].Spelled(), Spelled(word[1..]));
      ScanWord(next, word[1..]);
      assert s.word + first + rest == s.word + (first + rest);
    }
  }

  lemma {:induction false} ScanGap(s: Scan, gap: string)
    requires s.quote.None? && !s.escaped && ValidGap(gap)
    ensures Steps(s, gap) == s.Flush()
    decreases |gap|
  {
    assert gap[0] in gap && Step(s, gap[0]) == s.Flush();
    if |gap| == 1 {
      assert gap[1..] == "";
    } else {
      ScanGap(s.Flush(), gap[1..]);
    }
  }

  /** What the words of a line mean. */
  function Meanings(words: seq<Word>): (m: seq<string>)
    ensures |m| == |words| && forall i :: 0 <= i < |words| ==> m[i] == Meant(words[i])
  {
    seq(|words|, i requires 0 <= i < |words| => Meant(words[i]))
  }

  lemma LineParts(words: seq<Word>, gaps: seq<string>)
    requires ValidLine(words, gaps)
    ensures |words| == |gaps| + 1 && ValidWord(words[0])
    ensures gaps == [] ==> Line(words, gaps) == Spelled(words[0])
    ensures gaps != [] ==>
              && ValidGap(gaps[0]) && ValidLine(words[1..], gaps[1..])
              && Line(words, gaps) == Spelled(words[0]) + gaps[0] + Line(words[1..], gaps[1..])
  {
    assert words[0] in words && (gaps != [] ==> gaps[0] in gaps);
  }

  /** Nothing is open and no word begun. */
  function Fresh(out: seq<string>): Scan { Scan(out, "", None, false, false) }

  lemma ScanFirst(out: seq<string>, word: Word, gap: string)
    requires ValidWord(word) && (gap == "" || ValidGap(gap))
    ensures Steps(Fresh(out), Spelled(word) + gap) ==
              if gap == "" then Scan(out, Meant(word), None, false, true) else Fresh(out + [Meant(word)])
  {
    hide Steps, Spelled, Meant, ValidGap;
    var done := Scan(out, Meant(word), None, false, true);
    StepsAppend(Fresh(out), Spelled(word), gap);
    ScanWord(Fresh(out), word);
    assert "" + Meant(word) == Meant(word);
    if gap == "" {
      ScanNothing(done);
    } else {
      ScanGap(done, gap);
    }
  }

  lemma MeaningsStep(out: seq<string>, words: seq<Word>)
    requires words != []
    ensures out + Meanings(words) == out + [Meant(words[0])] + Meanings(words[1..])
  {
    hide Meant;
  }

  /** A line leaves its last word open and the others behind. */
  lemma {:induction false} ScanLine(out: seq<string>, words: seq<Word>, gaps: seq<string>)
    requires ValidLine(words, gaps)
    ensures
      var end := Steps(Fresh(out), Line(words, gaps));
      end.quote == None && !end.escaped && end.seen && end.out + [end.word] == out + Meanings(words)
    decreases |gaps|
  {
    hide Steps, Spelled, Meant, ValidGap, ValidWord, ValidLine, Line, Meanings;
    LineParts(words, gaps);
    MeaningsStep(out, words);
    if gaps == [] {
      assert Spelled(words[0]) + "" == Spelled(words[0]);
      ScanFirst(out, words[0], "");
      assert words[1..] == [];
      assert out + [Meant(words[0])] + Meanings(words[1..]) == out + [Meant(words[0])];
    } else {
      StepsAppend(Fresh(out), Spelled(words[0]) + gaps[0], Line(words[1..], gaps[1..]));
      ScanFirst(out, words[0], gaps[0]);
      ScanLine(out + [Meant(words[0])], words[1..], gaps[1..]);
    }
  }

  // ---------------------------------------------------------------- what splitting gives

  predicate Blank(s: string) { forall c :: c in s ==> IsSpace(c) }

  predicate Trimmed(s: string) { s != "" && !IsSpace(s[0]) && !IsSpace(s[|s| - 1]) }

  lemma {:induction false} TrimIs(lead: string, s: string, trail: string)
    requires Blank(lead) && Blank(trail) && Trimmed(s)
    ensures TrimSpace(lead + s + trail) == s
    decreases |lead| + |trail|
  {
    var all := lead + s + trail;
    if lead != "" {
      assert all[0] == lead[0] && lead[0] in lead && all[1..] == lead[1..] + s + trail;
      TrimIs(lead[1..], s, trail);
    } else if trail != "" {
      var last := |trail| - 1;
      assert all[0] == s[0] && all[|all| - 1] == trail[last] && trail[last] in trail;
      assert all[..|all| - 1] == lead + s + trail[..last];
      TrimIs(lead, s, trail[..last]);
    } else {
      assert all == s;
    }
  }

  /**
   However its words are spelled and whatever separates them, a line that does not begin or end with a space splits
   into what its words mean, and white space around it makes no difference.
   */
  lemma {:induction false} SplitReadsWords(lead: string, words: seq<Word>, gaps: seq<string>, trail: string)
    requires ValidLine(words, gaps) && Trimmed(Line(words, gaps)) && Blank(lead) && Blank(trail)
    ensures Split(lead + Line(words, gaps) + trail) == Meanings(words)
  {
    hide Steps, TrimSpace, Line, ValidWord, ValidGap, Meanings, IsSpace;
    TrimIs(lead, Line(words, gaps), trail);
    ScanLine([], words, gaps);
    assert [] + Meanings(words) == Meanings(words);
  }

  /** A backslash that dangles behind the last word stands for itself. */
  lemma {:induction false} DanglingBackslashStays(words: seq<Word>, gaps: seq<string>)
    requires ValidLine(words, gaps) && Line(words, gaps) != "" && !IsSpace(Line(words, gaps)[0])
    ensures Split(Line(words, gaps) + ['\\']) ==
              Meanings(words)[..|words| - 1] + [Meanings(words)[|words| - 1] + ['\\']]
  {
    var line := Line(words, gaps);
    TrimIs("", line + ['\\'], "");
    assert "" + (line + ['\\']) + "" == line + ['\\'];
    ScanLine([], words, gaps);
    var end := Steps(START, line);
    StepsAppend(START, line, ['\\']);
    ScanOne(end, '\\');
    assert [] + Meanings(words) == Meanings(words);
    assert (end.out + [end.word])[..|end.out|] == end.out;
  }

  /** So an escaped space at the very end is trimmed away, and what is left is the backslash. */
  lemma EscapedSpaceAtTheEnd()
    ensures Split("a\\ ") == ["a\\"]
  {
    TrimIs("", "a\\", " ");
    assert "" + "a\\" + " " == "a\\ ";
    ScanOne(START, 'a');
    StepsAppend(START, "a", "\\");
    ScanOne(Step(START, 'a'), '\\');
    assert "a" + "\\" == "a\\";
    assert Steps(START, "a\\") == Scan([], "a", None, true, true);
    assert "a" + ['\\'] == "a\\";
  }

  lemma {:induction false} LineEnds(words: seq<Word>, gaps: seq<string>)
    requires ValidLine(words, gaps) && forall w :: w in words ==> Spelled(w) != ""
    ensures
      var line, last := Line(words, gaps), Spelled(words[|words| - 1]);
      line != "" && line[0] == Spelled(words[0])[0] && line[|line| - 1] == last[|last| - 1]
    decreases |gaps|
  {
    hide Spelled, ValidWord, ValidGap;
    assert words[0] in words;
    if gaps != [] {
      LineEnds(words[1..], gaps[1..]);
    }
  }

  lemma SpelledOne(piece: Piece)
    ensures Spelled([piece]) == piece.Spelled() && Meant([piece]) == piece.Meant()
  {
    assert Spelled([piece][1..]) == "" && Meant([piece][1..]) == "";
    assert piece.Spelled() + "" == piece.Spelled() && piece.Meant() + "" == piece.Meant();
  }

  /** Words joined with gaps. */
  function Joined(words: seq<string>, gaps: seq<string>): string
    requires |words| == |gaps| + 1
  {
    if gaps == [] then words[0] else words[0] + gaps[0] + Joined(words[1..], gaps[1..])
  }

  function PlainWords(words: seq<string>): (ws: seq<Word>)
    ensures |ws| == |words| && forall i :: 0 <= i < |words| ==> ws[i] == [Plain(words[i])]
  {
    seq(|words|, i requires 0 <= i < |words| => [Plain(words[i])])
  }

  lemma {:induction false} JoinedIsLine(words: seq<string>, gaps: seq<string>)
    requires |words| == |gaps| + 1
    ensures Line(PlainWords(words), gaps) == Joined(words, gaps)
    decreases |gaps|
  {
    SpelledOne(Plain(words[0]));
    if gaps != [] {
      assert PlainWords(words)[1..] == PlainWords(words[1..]);
      JoinedIsLine(words[1..], gaps[1..]);
    }
  }

  /** Plain words come out as they are, whatever runs of spaces, tabs and line ends separate and surround them. */
  lemma {:induction false} SplitPlainWords(lead: string, words: seq<string>, gaps: seq<string>, trail: string)
    requires |words| == |gaps| + 1 && Blank(lead) && Blank(trail)
    requires forall w :: w in words ==> Trimmed(w) && forall c :: c in w ==> c !in "'\"\\ \t\n\r"
    requires forall g :: g in gaps ==> g != "" && forall c :: c in g ==> c in " \t\n\r"
    ensures Split(lead + Joined(words, gaps) + trail) == words
  {
    hide Steps, TrimSpace, Line, Joined;
    var ws := PlainWords(words);
    forall w | w in ws ensures ValidWord(w) && Spelled(w) != "" && Trimmed(Spelled(w)) {
      var i :| 0 <= i < |ws| && ws[i] == w;
      assert words[i] in words;
      SpelledOne(w[0]);
    }
    LineEnds(ws, gaps);
    assert ws[0] in ws && ws[|ws| - 1] in ws;
    JoinedIsLine(words, gaps);
    SplitReadsWords(lead, ws, gaps, trail);
    forall i | 0 <= i < |words| ensures Meanings(ws)[i] == words[i] {
      SpelledOne(Plain(words[i]));
    }
    assert Meanings(ws) == words;
  }

  // ---------------------------------------------------------------- quoting, the inverse

  function QuotedWords(quotes: seq<char>, args: seq<string>): (ws: seq<Word>)
    requires |quotes| == |args|
    ensures |ws| == |args| && forall i :: 0 <= i < |args| ==> ws[i] == [Quote(quotes[i], args[i])]
  {
    seq(|args|, i requires 0 <= i < |args| => [Quote(quotes[i], args[i])])
  }

  /** The arguments quoted, each with its own quote mark, and joined with single spaces. */
  function CommandLine(quotes: seq<char>, args: seq<string>): string
    requires |quotes| == |args|
  {
    if args == [] then "" else Line(QuotedWords(quotes, args), seq(|args| - 1, i => " "))
  }

  lemma QuotedIsTrimmed(q: char, arg: string)
    requires IsQuote(q)
    ensures ValidWord([Quote(q, arg)]) && Trimmed(Spelled([Quote(q, arg)]))
  {
    SpelledOne(Quote(q, arg));
  }

  lemma EmptyLine()
    ensures Split("") == []
  {
  }

  /** Splitting inverts quoting, for every list of arguments, empty ones included, and either quote mark on each. */
  lemma {:induction false} SplitInvertsQuoting(quotes: seq<char>, args: seq<string>)
    requires |quotes| == |args| && forall q :: q in quotes ==> IsQuote(q)
    ensures Split(CommandLine(quotes, args)) == args
  {
    hide Steps, TrimSpace, Line, Spelled, Meant, Piece.Valid;
    if args == [] {
      EmptyLine();
    } else {
      var words, gaps := QuotedWords(quotes, args), seq(|args| - 1, i => " ");
      forall w | w in words ensures ValidWord(w) && Trimmed(Spelled(w)) {
        var i :| 0 <= i < |words| && words[i] == w;
        assert quotes[i] in quotes;
        QuotedIsTrimmed(quotes[i], args[i]);
      }
      LineEnds(words, gaps);
      assert words[0] in words && words[|words| - 1] in words;
      SplitReadsWords("", words, gaps, "");
      assert "" + Line(words, gaps) + "" == Line(words, gaps);
      forall i | 0 <= i < |args| ensures Meanings(words)[i] == args[i] {
        SpelledOne(words[i][0]);
      }
      assert Meanings(words) == args;
    }
  }
}

/** internal/agentfix: splitting the agent command line into arguments, and the shell
    quoting of internal/readinessresolve that it undoes. */
module CommandLine {
  import opened Wrappers
  import opened Text

  const QUOTE := '\''
  const DOUBLE := '"'
  const ESCAPE := '\\'

  datatype Scan = Scan(args: seq<string>, current: string, quote: Option<char>, escaped: bool)

  const START := Scan([], "", None, false)

  predicate Gap(c: char) {
    c == ' ' || c == '\t' || c == '\n' || c == '\r'
  }

  function Step(st: Scan, c: char): Scan {
    if st.escaped then st.(current := st.current + [c], escaped := false)
    else if c == ESCAPE then st.(escaped := true)
    else if st.quote.Some? then
      if c == st.quote.value then st.(quote := None) else st.(current := st.current + [c])
    else if c == QUOTE || c == DOUBLE then st.(quote := Some(c))
    else if Gap(c) then
      if st.current != "" then st.(args := st.args + [st.current], current := "") else st
    else st.(current := st.current + [c])
  }

  function Run(st: Scan, s: string): Scan {
    if s == [] then st else Step(Run(st, s[..|s| - 1]), s[|s| - 1])
  }

  /** The arguments, or nothing when a quote is left open. */
  function Finish(st: Scan): Option<seq<string>> {
    var last := if st.escaped then st.current + [ESCAPE] else st.current;
    if st.quote.Some? then None
    else Some(if last != "" then st.args + [last] else st.args)
  }

  method SplitCommandLine(input: string) returns (r: Option<seq<string>>)
    ensures r == Finish(Run(START, input))
  {
    var args, current, quote: Option<char>, escaped := [], "", None, false;
    for i := 0 to |input|
      invariant Scan(args, current, quote, escaped) == Run(START, input[..i])
    {
      var c := input[i];
      assert input[..i + 1][..i] == input[..i];
      if escaped {
        current, escaped := current + [c], false;
      } else if c == ESCAPE {
        escaped := true;
      } else if quote != None {
        if c == quote.value { quote := None; } else { current := current + [c]; }
      } else if c == QUOTE || c == DOUBLE {
        quote := Some(c);
      } else if Gap(c) {
        if |current| > 0 {
          args, current := args + [current], "";
        }
      } else {
        current := current + [c];
      }
    }
    assert input[..|input|] == input;
    if escaped { current := current + [ESCAPE]; }
    if quote != None { return None; }
    if |current| > 0 { args := args + [current]; }
    return Some(args);
  }

  lemma {:induction false} RunConcat(st: Scan, a: string, b: string)
    ensures Run(st, a + b) == Run(Run(st, a), b)
  {
    if b == [] {
      assert a + b == a;
    } else {
      assert (a + b)[..|a + b| - 1] == a + b[..|b| - 1];
      RunConcat(st, a, b[..|b| - 1]);
    }
  }

  lemma RunThrough(st: Scan, a: string, mid: Scan, b: string, end: Scan)
    requires Run(st, a) == mid && Run(mid, b) == end
    ensures Run(st, a + b) == end
  {
    RunConcat(st, a, b);
  }

  // ---------------------------------------------------------------- quoting

  function Escaped(w: string): string {
    if w == [] then []
    else EscapedChar(w[0]) + Escaped(w[1..])
  }

  function EscapedChar(c: char): string {
    if c == QUOTE then [QUOTE, DOUBLE, QUOTE, DOUBLE, QUOTE] else [c]
  }

  /** shellQuote. */
  function ShellQuote(w: string): string {
    [QUOTE] + Escaped(w) + [QUOTE]
  }

  function QuoteAll(words: seq<string>): seq<string> {
    seq(|words|, i requires 0 <= i < |words| => ShellQuote(words[i]))
  }

  function Line(words: seq<string>): string {
    Join(QuoteAll(words), ' ')
  }

  lemma RunEscapedChar(st: Scan, c: char)
    requires !st.escaped && st.quote == Some(QUOTE) && c != ESCAPE
    ensures Run(st, EscapedChar(c)) == st.(current := st.current + [c])
  {
    if c == QUOTE {
      var s := [QUOTE, DOUBLE, QUOTE, DOUBLE, QUOTE];
      assert s[..4] == [QUOTE, DOUBLE, QUOTE, DOUBLE] && s[..4][..3] == [QUOTE, DOUBLE, QUOTE];
      assert s[..4][..3][..2] == [QUOTE, DOUBLE] && s[..4][..3][..2][..1] == [QUOTE];
      assert Run(st, [QUOTE]) == st.(quote := None);
      assert Run(st, [QUOTE, DOUBLE]) == st.(quote := Some(DOUBLE));
      assert Run(st, [QUOTE, DOUBLE, QUOTE]) == st.(quote := Some(DOUBLE), current := st.current + [QUOTE]);
    } else {
      assert [c][..0] == [];
    }
  }

  lemma {:induction false} RunEscaped(st: Scan, w: string)
    requires !st.escaped && st.quote == Some(QUOTE) && ESCAPE !in w
    ensures Run(st, Escaped(w)) == st.(current := st.current + w)
    decreases |w|
  {
    if w == [] {
      assert st.current + w == st.current;
    } else {
      RunEscapedChar(st, w[0]);
      var next := st.(current := st.current + [w[0]]);
      RunEscaped(next, w[1..]);
      assert st.current + [w[0]] + w[1..] == st.current + w;
      RunThrough(st, EscapedChar(w[0]), next, Escaped(w[1..]), st.(current := st.current + w));
    }
  }

  lemma RunQuoted(st: Scan, w: string)
    requires !st.escaped && st.quote == None && ESCAPE !in w
    ensures Run(st, ShellQuote(w)) == st.(current := st.current + w)
  {
    RunConcat(st, [QUOTE] + Escaped(w), [QUOTE]);
    RunConcat(st, [QUOTE], Escaped(w));
    RunEscaped(st.(quote := Some(QUOTE)), w);
  }

  lemma RunWord(args: seq<string>, w: string, rest: string)
    requires w != "" && ESCAPE !in w
    ensures Run(Scan(args, "", None, false), ShellQuote(w) + [' '] + rest)
              == Run(Scan(args + [w], "", None, false), rest)
  {
    var st := Scan(args, "", None, false);
    RunQuoted(st, w);
    assert "" + w == w;
    RunThrough(st, ShellQuote(w), Scan(args, w, None, false), [' '], Scan(args + [w], "", None, false));
    RunConcat(st, ShellQuote(w) + [' '], rest);
  }

  lemma LineSplits(words: seq<string>)
    requires |words| > 1
    ensures Line(words) == ShellQuote(words[0]) + [' '] + Line(words[1..])
  {
    assert QuoteAll(words)[1..] == QuoteAll(words[1..]);
  }

  lemma {:induction false} RunLine(args: seq<string>, words: seq<string>)
    requires words != [] && forall i :: 0 <= i < |words| ==> words[i] != "" && ESCAPE !in words[i]
    ensures Run(Scan(args, "", None, false), Line(words))
              == Scan(args + words[..|words| - 1], words[|words| - 1], None, false)
    decreases |words|
  {
    if |words| == 1 {
      RunQuoted(Scan(args, "", None, false), words[0]);
      assert args + words[..0] == args && "" + words[0] == words[0];
    } else {
      LineSplits(words);
      RunWord(args, words[0], Line(words[1..]));
      RunLine(args + [words[0]], words[1..]);
      assert args + [words[0]] + words[1..][..|words| - 2] == args + words[..|words| - 1];
    }
  }

  // ---------------------------------------------------------------- what is lost

  function Escapes(s: string): nat {
    if s == [] then 0 else (if s[0] == ESCAPE then 1 else 0) + Escapes(s[1..])
  }

  function AllEscapes(words: seq<string>): nat {
    if words == [] then 0 else Escapes(words[0]) + AllEscapes(words[1..])
  }

  lemma {:induction false} EscapesConcat(a: string, b: string)
    ensures Escapes(a + b) == Escapes(a) + Escapes(b)
  {
    if a == [] {
      assert a + b == b;
    } else {
      assert (a + b)[1..] == a[1..] + b;
      EscapesConcat(a[1..], b);
    }
  }

  lemma {:induction false} AllEscapesSnoc(words: seq<string>, w: string)
    ensures AllEscapes(words + [w]) == AllEscapes(words) + Escapes(w)
  {
    if words == [] {
      assert [w][1..] == [];
    } else {
      assert (words + [w])[1..] == words[1..] + [w];
      AllEscapesSnoc(words[1..], w);
    }
  }

  function Weight(st: Scan): nat {
    2 * (AllEscapes(st.args) + Escapes(st.current)) + if st.escaped then 1 else 0
  }

  lemma StepWeight(st: Scan, c: char)
    ensures Weight(Step(st, c)) <= Weight(st) + if c == ESCAPE then 1 else 0
  {
    EscapesConcat(st.current, [c]);
    AllEscapesSnoc(st.args, st.current);
    assert Escapes([c]) == if c == ESCAPE then 1 else 0;
  }

  /** Two backslashes of input are needed for every one of output; no argument is ever empty. */
  lemma {:induction false} OutputHalves(s: string)
    ensures Weight(Run(START, s)) <= Escapes(s)
    ensures forall a :: a in Run(START, s).args ==> a != ""
  {
    if s != [] {
      var init, c := s[..|s| - 1], s[|s| - 1];
      OutputHalves(init);
      StepWeight(Run(START, init), c);
      assert s == init + [c];
      EscapesConcat(init, [c]);
      assert Escapes([c]) == if c == ESCAPE then 1 else 0;
    }
  }

  lemma {:induction false} EscapedKeeps(w: string)
    ensures Escapes(Escaped(w)) == Escapes(w)
  {
    if w != [] {
      EscapedKeeps(w[1..]);
      EscapesConcat(EscapedChar(w[0]), Escaped(w[1..]));
      NoEscapes(EscapedChar(w[0]));
    }
  }

  lemma {:induction false} NoEscapes(s: string)
    ensures Escapes(s) == 0 <==> ESCAPE !in s
  {
    if s != [] {
      NoEscapes(s[1..]);
      assert s == [s[0]] + s[1..];
    }
  }

  lemma {:induction false} LineKeeps(words: seq<string>)
    ensures Escapes(Line(words)) == AllEscapes(words)
    ensures words != [] ==> Line(words) != "" && Line(words)[|Line(words)| - 1] == QUOTE
  {
    if words != [] {
      var q := ShellQuote(words[0]);
      EscapesConcat([QUOTE], Escaped(words[0]));
      EscapesConcat([QUOTE] + Escaped(words[0]), [QUOTE]);
      EscapedKeeps(words[0]);
      LineKeeps(words[1..]);
      assert QuoteAll(words)[1..] == QuoteAll(words[1..]);
      if |words| > 1 {
        EscapesConcat(q + [' '], Line(words[1..]));
        EscapesConcat(q, [' ']);
      }
    }
  }

  lemma {:induction false} SomeEscapes(words: seq<string>)
    ensures AllEscapes(words) == 0 <==> forall w :: w in words ==> ESCAPE !in w
  {
    if words != [] {
      NoEscapes(words[0]);
      SomeEscapes(words[1..]);
      assert words == [words[0]] + words[1..];
    }
  }

  lemma PlainWordsComeBack(words: seq<string>)
    requires forall w :: w in words ==> w != "" && ESCAPE !in w
    ensures Finish(Run(START, Line(words))) == Some(words)
  {
    if words != [] {
      forall i | 0 <= i < |words| ensures words[i] != "" && ESCAPE !in words[i] { assert words[i] in words; }
      RunLine([], words);
      assert [] + words[..|words| - 1] + [words[|words| - 1]] == words;
    }
  }

  /** Splitting the quoted words gives the words back exactly when none is empty and none
      holds a backslash. */
  lemma SplitUndoesQuoting(words: seq<string>)
    ensures Finish(Run(START, Line(words))) == Some(words)
       <==> forall w :: w in words ==> w != "" && ESCAPE !in w
  {
    if forall w :: w in words ==> w != "" && ESCAPE !in w {
      PlainWordsComeBack(words);
    } else {
      var st := Run(START, Line(words));
      LineKeeps(words);
      OutputHalves(Line(words));
      SomeEscapes(words);
      AllEscapesSnoc(st.args, st.current);
      EscapedEnd(START, Line(words));
    }
  }

  lemma EscapedEnd(st: Scan, s: string)
    requires s != "" && s[|s| - 1] != ESCAPE
    ensures !Run(st, s).escaped
  {
  }

  // ---------------------------------------------------------------- all ways of writing a word

  /** A piece of a word as it may stand on the command line. */
  datatype Piece = Bare(c: char) | Protected(c: char) | InSingle(text: string) | InDouble(text: string)

  predicate Proper(p: Piece) {
    match p
    case Bare(c) => c !in {' ', '\t', '\n', '\r', '\'', '"', '\\'}
    case Protected(_) => true
    case InSingle(text) => '\'' !in text && '\\' !in text
    case InDouble(text) => '"' !in text && '\\' !in text
  }

  function Written(p: Piece): string {
    match p
    case Bare(c) => [c]
    case Protected(c) => ['\\', c]
    case InSingle(text) => ['\''] + text + ['\'']
    case InDouble(text) => ['"'] + text + ['"']
  }

  function Meant(p: Piece): string {
    match p
    case Bare(c) => [c]
    case Protected(c) => [c]
    case InSingle(text) => text
    case InDouble(text) => text
  }

  function WrittenWord(word: seq<Piece>): string {
    if word == [] then "" else WrittenWord(word[..|word| - 1]) + Written(word[|word| - 1])
  }

  function MeantWord(word: seq<Piece>): string {
    if word == [] then "" else MeantWord(word[..|word| - 1]) + Meant(word[|word| - 1])
  }

  predicate Blanks(gap: string) {
    forall i :: 0 <= i < |gap| ==> gap[i] in {' ', '\t', '\n', '\r'}
  }

  /** The words with a gap in front of each. */
  function WrittenLine(words: seq<seq<Piece>>, gaps: seq<string>): string
    requires |gaps| == |words|
  {
    if words == [] then ""
    else
      var n := |words| - 1;
      WrittenLine(words[..n], gaps[..n]) + gaps[n] + WrittenWord(words[n])
  }

  function MeantLine(words: seq<seq<Piece>>): seq<string> {
    seq(|words|, i requires 0 <= i < |words| => MeantWord(words[i]))
  }

  lemma {:induction false} RunInQuotes(st: Scan, text: string)
    requires !st.escaped && st.quote.Some? && st.quote.value !in text && ESCAPE !in text
    ensures Run(st, text) == st.(current := st.current + text)
  {
    if text == "" {
      assert st.current + "" == st.current;
    } else {
      var init, c := text[..|text| - 1], text[|text| - 1];
      assert text == init + [c] && c in text;
      RunInQuotes(st, init);
      assert st.current + init + [c] == st.current + text;
    }
  }

  lemma RunInPair(st: Scan, q: char, text: string)
    requires !st.escaped && st.quote.None? && q in {QUOTE, DOUBLE} && q !in text && ESCAPE !in text
    ensures Run(st, [q] + text + [q]) == st.(current := st.current + text)
  {
    var inside := st.(quote := Some(q));
    RunInQuotes(inside, text);
    RunThrough(st, [q], inside, text, inside.(current := st.current + text));
    RunThrough(st, [q] + text, inside.(current := st.current + text), [q], st.(current := st.current + text));
  }

  lemma RunOne(st: Scan, c: char)
    ensures Run(st, [c]) == Step(st, c)
  {
    assert [c][..0] == [];
  }

  lemma RunProtected(st: Scan, c: char)
    requires !st.escaped && st.quote.None?
    ensures Run(st, [ESCAPE, c]) == st.(current := st.current + [c])
  {
    RunOne(st, ESCAPE);
    RunOne(st.(escaped := true), c);
    assert [ESCAPE] + [c] == [ESCAPE, c];
    RunThrough(st, [ESCAPE], st.(escaped := true), [c], st.(current := st.current + [c]));
  }

  lemma RunPiece(st: Scan, p: Piece)
    requires !st.escaped && st.quote.None? && Proper(p)
    ensures Run(st, Written(p)) == st.(current := st.current + Meant(p))
  {
    match p
    case Bare(c) => RunOne(st, c);
    case Protected(c) => RunProtected(st, c);
    case InSingle(text) => RunInPair(st, QUOTE, text);
    case InDouble(text) => RunInPair(st, DOUBLE, text);
  }

  lemma RunThenPiece(st: Scan, a: string, mid: Scan, p: Piece, whole: string, meant: string)
    requires Run(st, a) == mid && !mid.escaped && mid.quote.None? && Proper(p)
    requires whole == a + Written(p) && meant == mid.current + Meant(p)
    ensures Run(st, whole) == mid.(current := meant)
  {
    RunPiece(mid, p);
    RunThrough(st, a, mid, Written(p), mid.(current := meant));
  }

  lemma WordSnoc(word: seq<Piece>, n: nat)
    requires n + 1 == |word|
    ensures WrittenWord(word) == WrittenWord(word[..n]) + Written(word[n])
    ensures MeantWord(word) == MeantWord(word[..n]) + Meant(word[n])
  {
  }

  lemma {:induction false} RunPieces(st: Scan, word: seq<Piece>, n: nat)
    requires n == |word| && !st.escaped && st.quote.None? && forall i :: 0 <= i < n ==> Proper(word[i])
    ensures Run(st, WrittenWord(word)) == st.(current := st.current + MeantWord(word))
    decreases n
  {
    if n == 0 {
      assert st.current + "" == st.current;
    } else {
      var k: nat := n - 1;
      var written, meant, last := WrittenWord(word[..k]), MeantWord(word[..k]), word[k];
      RunPieces(st, word[..k], k);
      WordSnoc(word, k);
      PlusAssociates(st.current, meant, Meant(last));
      RunThenPiece(st, written, st.(current := st.current + meant), last, written + Written(last),
                   st.current + meant + Meant(last));
    }
  }

  lemma {:induction false} RunGap(args: seq<string>, current: string, gap: string)
    requires Blanks(gap)
    ensures Run(Scan(args, current, None, false), gap)
         == if gap == "" || current == "" then Scan(args, current, None, false)
            else Scan(args + [current], "", None, false)
  {
    if gap != "" { RunGap(args, current, gap[..|gap| - 1]); }
  }

  /** What may stand on a line: words of proper pieces that mean something, with gaps between them. */
  ghost predicate ProperLine(words: seq<seq<Piece>>, gaps: seq<string>) {
    && |gaps| == |words|
    && (forall i :: 0 <= i < |words| ==> ProperWord(words[i]))
    && (forall i :: 0 <= i < |gaps| ==> Blanks(gaps[i]) && (i > 0 ==> gaps[i] != ""))
  }

  ghost predicate ProperWord(word: seq<Piece>) {
    MeantWord(word) != "" && forall i :: 0 <= i < |word| ==> Proper(word[i])
  }

  /** A gap and a word after what went before. */
  lemma RunGapAndWord(st: Scan, a: string, texts: seq<string>, gap: string, word: seq<Piece>, args: seq<string>,
                      current: string)
    requires Run(st, a) == Scan(args, current, None, false) && Blanks(gap) && ProperWord(word)
    requires if current == "" then texts == args else gap != "" && texts == args + [current]
    ensures Run(st, a + gap + WrittenWord(word)) == Scan(texts, MeantWord(word), None, false)
  {
    var between := Scan(texts, "", None, false);
    RunGap(args, current, gap);
    RunThrough(st, a, Scan(args, current, None, false), gap, between);
    RunPieces(between, word, |word|);
    assert "" + MeantWord(word) == MeantWord(word);
    RunThrough(st, a + gap, between, WrittenWord(word), Scan(texts, MeantWord(word), None, false));
  }

  lemma ProperFront(words: seq<seq<Piece>>, gaps: seq<string>, n: nat)
    requires ProperLine(words, gaps) && n < |words|
    ensures ProperLine(words[..n], gaps[..n]) && ProperWord(words[n]) && Blanks(gaps[n]) && (n > 0 ==> gaps[n] != "")
  {
  }

  lemma LineSnoc(words: seq<seq<Piece>>, gaps: seq<string>, n: nat)
    requires |gaps| == |words| == n + 1
    ensures WrittenLine(words, gaps) == WrittenLine(words[..n], gaps[..n]) + gaps[n] + WrittenWord(words[n])
  {
  }

  lemma TextsSnoc(words: seq<seq<Piece>>, n: nat)
    requires n < |words|
    ensures MeantLine(words)[..n + 1] == MeantLine(words)[..n] + [MeantWord(words[n])]
    ensures MeantLine(words[..n]) == MeantLine(words)[..n]
  {
  }

  lemma {:induction false} RunWritten(words: seq<seq<Piece>>, gaps: seq<string>, n: nat)
    requires n + 1 == |words| && ProperLine(words, gaps)
    ensures Run(START, WrittenLine(words, gaps)) == Scan(MeantLine(words)[..n], MeantWord(words[n]), None, false)
    decreases n
  {
    ProperFront(words, gaps, n);
    LineSnoc(words, gaps, n);
    var line, texts := WrittenLine(words[..n], gaps[..n]), MeantLine(words)[..n];
    if n == 0 {
      assert line == "" && texts == [];
      RunGapAndWord(START, line, texts, gaps[n], words[n], [], "");
    } else {
      var m: nat := n - 1;
      var init := words[..n];
      RunWritten(init, gaps[..n], m);
      ProperFront(init, gaps[..n], m);
      TextsSnoc(words, n);
      TextsSnoc(init, m);
      assert MeantLine(init)[..m + 1] == MeantLine(init);
      RunGapAndWord(START, line, texts, gaps[n], words[n], MeantLine(init)[..m], MeantWord(init[m]));
    }
  }

  lemma RunEnd(st: Scan, line: string, args: seq<string>, text: string, trail: string)
    requires Run(st, line) == Scan(args, text, None, false) && text != "" && Blanks(trail)
    ensures Finish(Run(st, line + trail)) == Some(args + [text])
    ensures Finish(Run(st, line + [ESCAPE])) == Some(args + [text + [ESCAPE]])
    ensures Finish(Run(st, line + [QUOTE])) == None && Finish(Run(st, line + [DOUBLE])) == None
  {
    var end := Scan(args, text, None, false);
    RunGap(args, text, trail);
    RunConcat(st, line, trail);
    RunConcat(st, line, [ESCAPE]);
    RunConcat(st, line, [QUOTE]);
    RunConcat(st, line, [DOUBLE]);
    RunOne(end, ESCAPE);
    RunOne(end, QUOTE);
    RunOne(end, DOUBLE);
  }

  /** However the words are written, with quotes, backslashes and any gaps, they are what is found. A
      backslash at the very end stands for itself, and an open quote is an error. */
  lemma WrittenWordsAreFound(words: seq<seq<Piece>>, gaps: seq<string>, trail: string, n: nat)
    requires n + 1 == |words| && ProperLine(words, gaps) && Blanks(trail)
    ensures var texts, line := MeantLine(words), WrittenLine(words, gaps);
            && Finish(Run(START, line + trail)) == Some(texts)
            && Finish(Run(START, line + ['\\'])) == Some(texts[..n] + [texts[n] + ['\\']])
            && Finish(Run(START, line + ['\''])) == None && Finish(Run(START, line + ['"'])) == None
  {
    RunWritten(words, gaps, n);
    ProperFront(words, gaps, n);
    TextsSnoc(words, n);
    assert MeantLine(words)[..n + 1] == MeantLine(words);
    RunEnd(START, WrittenLine(words, gaps), MeantLine(words)[..n], MeantWord(words[n]), trail);
  }

  // ---------------------------------------------------------------- placeholders

  /** strings.ReplaceAll for a non-empty old text. */
  function ReplaceAll(s: string, find: string, with: string): string
    requires find != ""
  {
    if s == [] then []
    else if find <= s then with + ReplaceAll(s[|find|..], find, with)
    else [s[0]] + ReplaceAll(s[1..], find, with)
  }

  function Substitute(arg: string, target: string, staging: string, prompt: string): string {
    ReplaceAll(ReplaceAll(ReplaceAll(arg, "{prompt_file}", prompt), "{staging_dir}", staging), "{target_dir}", target)
  }

  const DEFAULT_COMMAND :=
      "opencode run --file {prompt_file} \"Use the attached ai-logfixer prompt file and modify this staging project.\""

  /** The words of the command line and the two optional flags. */
  function Template(words: seq<string>, model: string, agent: string): seq<string> {
    words + (if model != "" then ["--model", model] else []) + (if agent != "" then ["--agent", agent] else [])
  }

  /** The arguments, or nothing for an open quote or no word at all. */
  function Words(commandLine: string): Option<seq<string>> {
    var trimmed := Trim(commandLine);
    var words := Finish(Run(START, if trimmed == "" then DEFAULT_COMMAND else trimmed));
    if words == Some([]) then None else words
  }

  /** buildAgentCommand: the paths are put into arguments that are already separate, so nothing in
      them can make two arguments out of one. */
  lemma FlagsKept(target: string, staging: string, prompt: string)
    ensures Substitute("--model", target, staging, prompt) == "--model"
    ensures Substitute("--agent", target, staging, prompt) == "--agent"
  {
    PlainArgumentKept("--model", target, staging, prompt);
    PlainArgumentKept("--agent", target, staging, prompt);
  }

  method BuildAgentCommand(commandLine: string, model: string, agent: string, target: string, staging: string,
                           prompt: string)
    returns (r: Option<seq<string>>)
    ensures r.None? <==> Words(commandLine).None?
    ensures r.Some? ==>
              var template := Template(Words(commandLine).value, model, agent);
              |r.value| == |template| && forall i :: 0 <= i < |template| ==>
                  r.value[i] == Substitute(template[i], target, staging, prompt)
    ensures Trim(commandLine) != "" ==> (r.None? <==> Finish(Run(START, Trim(commandLine))) in {None, Some([])})
    ensures Trim(commandLine) != "" && r.Some? ==>
              var words := Finish(Run(START, Trim(commandLine))).value; var n := |words|;
              && |r.value| == n + (if model == "" then 0 else 2) + (if agent == "" then 0 else 2)
              && (forall i :: 0 <= i < n ==> r.value[i] == Substitute(words[i], target, staging, prompt))
              && (model != "" ==>
                    r.value[n] == "--model" && r.value[n + 1] == Substitute(model, target, staging, prompt))
              && (agent != "" ==>
                    && r.value[|r.value| - 2] == "--agent"
                    && r.value[|r.value| - 1] == Substitute(agent, target, staging, prompt))
  {
    FlagsKept(target, staging, prompt);
    var line := Trim(commandLine);
    if line == "" { line := DEFAULT_COMMAND; }
    var words := SplitCommandLine(line);
    if words.None? || words.value == [] { return None; }
    var command := words.value;
    if model != "" { command := command + ["--model", model]; }
    if agent != "" { command := command + ["--agent", agent]; }
    ghost var template := command;
    assert template == Template(words.value, model, agent);
    for index := 0 to |command|
      invariant |command| == |template|
      invariant forall k :: 0 <= k < index ==> command[k] == Substitute(template[k], target, staging, prompt)
      invariant forall k :: index <= k < |command| ==> command[k] == template[k]
    {
      command := command[index := Substitute(command[index], target, staging, prompt)];
    }
    return Some(command);
  }

  lemma {:induction false} NothingToReplace(s: string, find: string, with: string)
    requires find != "" && find[0] !in s
    ensures ReplaceAll(s, find, with) == s
  {
    if s != [] {
      assert s[0] in s && !(find <= s);
      NothingToReplace(s[1..], find, with);
    }
  }

  /** An argument without a brace is passed on as it is. */
  lemma PlainArgumentKept(arg: string, target: string, staging: string, prompt: string)
    requires '{' !in arg
    ensures Substitute(arg, target, staging, prompt) == arg
  {
    NothingToReplace(arg, "{prompt_file}", prompt);
    NothingToReplace(arg, "{staging_dir}", staging);
    NothingToReplace(arg, "{target_dir}", target);
  }

  /** A text without the first character of what is sought is passed over. */
  lemma {:induction false} PassedOver(a: string, rest: string, find: string, with: string)
    requires find != "" && find[0] !in a
    ensures ReplaceAll(a + rest, find, with) == a + ReplaceAll(rest, find, with)
  {
    if a == "" {
      assert a + rest == rest;
    } else {
      assert (a + rest)[0] == a[0] && a[0] in a && (a + rest)[1..] == a[1..] + rest;
      PassedOver(a[1..], rest, find, with);
    }
  }

  lemma ReplacedOnce(a: string, b: string, find: string, with: string)
    requires find != "" && find[0] !in a && find[0] !in b
    ensures ReplaceAll(a + find + b, find, with) == a + with + b
  {
    assert a + find + b == a + (find + b) && (find + b)[|find|..] == b;
    PassedOver(a, find + b, find, with);
    NothingToReplace(b, find, with);
    assert a + (with + b) == a + with + b;
  }

  lemma OtherPlaceholder(a: string, b: string, there: string, find: string, with: string)
    requires find != "" && find[0] !in a && find[0] !in b && there != "" && find[0] !in there[1..]
    requires !(find <= there + b)
    ensures ReplaceAll(a + there + b, find, with) == a + there + b
  {
    assert a + there + b == a + (there + b);
    assert (there + b)[1..] == there[1..] + b && there + b == [there[0]] + (there + b)[1..];
    PassedOver(a, there + b, find, with);
    NothingToReplace((there + b)[1..], find, with);
  }

  /** Each placeholder becomes the path of its own name, whatever stands around it. */
  lemma PlaceholdersReplaced(a: string, b: string, target: string, staging: string, prompt: string)
    requires '{' !in a && '{' !in b && '{' !in target && '{' !in staging && '{' !in prompt
    ensures Substitute(a + "{target_dir}" + b, target, staging, prompt) == a + target + b
    ensures Substitute(a + "{staging_dir}" + b, target, staging, prompt) == a + staging + b
    ensures Substitute(a + "{prompt_file}" + b, target, staging, prompt) == a + prompt + b
  {
    var t, s, p := "{target_dir}", "{staging_dir}", "{prompt_file}";
    assert t[1] == 't' && s[1] == 's' && p[1] == 'p';
    OtherPlaceholder(a, b, t, p, prompt);
    OtherPlaceholder(a, b, t, s, staging);
    ReplacedOnce(a, b, t, target);
    OtherPlaceholder(a, b, s, p, prompt);
    ReplacedOnce(a, b, s, staging);
    NothingToReplace(a + staging + b, t, target);
    ReplacedOnce(a, b, p, prompt);
    NothingToReplace(a + prompt + b, s, staging);
    NothingToReplace(a + prompt + b, t, target);
  }
}

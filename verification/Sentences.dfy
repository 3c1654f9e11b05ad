/**
 The sentence grammar of the Storage Server: what `sentence_parse_text` computes, what
 `render_collection` prints, and the laws that tie the two together.
 */
module Sentences {
  import opened CTypes

  type Sentence = seq<string>

  predicate IsDelim(c: char) {
    c == '.' || c == '!' || c == '?'
  }

  // ---------------------------------------------------------------- the scanner

  /** A delimiter ends the open token, or else goes to the end of the last word, or else is dropped. */
  function Attach(words: Sentence, token: string, c: char): Sentence {
    if token != "" then words + [token + [c]]
    else if words != [] then words[|words| - 1 := words[|words| - 1] + [c]]
    else []
  }

  /** Where the scan stands: finished sentences, the open sentence, the open token. */
  datatype Scan = Scan(done: seq<Sentence>, current: Sentence, token: string) {
    predicate Fresh() {
      current == [] && token == ""
    }

    function Flush(): Scan {
      if token == "" then this else Scan(done, current + [token], "")
    }

    function Close(c: char): Scan {
      var words := Attach(current, token, c);
      if words == [] then this else Scan(done + [words], [], "")
    }

    function Step(c: char): Scan {
      if IsSpace(c) then Flush()
      else if IsDelim(c) then Close(c)
      else this.(token := token + [c])
    }

    function Run(text: string): Scan
      decreases |text|
    {
      if text == "" then this else Step(text[0]).Run(text[1..])
    }

    function Finish(): seq<Sentence> {
      var s := Flush();
      var all := if s.current == [] then s.done else s.done + [s.current];
      if all == [] then [[]] else all
    }
  }

  const START := Scan([], [], "")

  function Parse(text: string): seq<Sentence> {
    START.Run(text).Finish()
  }

  // ---------------------------------------------------------------- the printer

  function Join(words: Sentence): string {
    if words == [] then ""
    else if |words| == 1 then words[0]
    else words[0] + " " + Join(words[1..])
  }

  function Render(c: seq<Sentence>): string {
    if c == [] then ""
    else if |c| == 1 || Join(c[0]) == "" then Join(c[0]) + Render(c[1..])
    else Join(c[0]) + " " + Render(c[1..])
  }

  // ---------------------------------------------------------------- well-formedness

  /** A word starts with a character that is no delimiter; only its last may be one. */
  ghost predicate WordOk(w: string) {
    && w != ""
    && forall i :: 0 <= i < |w| ==> !IsSpace(w[i]) && (IsDelim(w[i]) ==> 0 < i == |w| - 1)
  }

  predicate Ended(w: string) {
    w != "" && IsDelim(w[|w| - 1])
  }

  ghost predicate Plain(w: string) {
    WordOk(w) && !Ended(w)
  }

  ghost predicate SentenceOk(s: Sentence) {
    && s != []
    && WordOk(s[|s| - 1])
    && forall i :: 0 <= i < |s| - 1 ==> Plain(s[i])
  }

  predicate Terminated(s: Sentence) {
    s != [] && Ended(s[|s| - 1])
  }

  ghost predicate WellFormed(c: seq<Sentence>) {
    || c == [[]]
    || (&& c != []
        && (forall i :: 0 <= i < |c| ==> SentenceOk(c[i]))
        && (forall i :: 0 <= i < |c| - 1 ==> Terminated(c[i])))
  }

  ghost predicate ScanOk(s: Scan) {
    && (forall i :: 0 <= i < |s.done| ==> SentenceOk(s.done[i]) && Terminated(s.done[i]))
    && (forall i :: 0 <= i < |s.current| ==> Plain(s.current[i]))
    && (s.token != "" ==> Plain(s.token))
  }

  lemma StepKeepsScanOk(s: Scan, c: char)
    requires ScanOk(s)
    ensures ScanOk(s.Step(c))
  {
    var t := s.token + [c];
    if !IsSpace(c) && IsDelim(c) && s.token == "" && s.current != [] {
      var last := s.current[|s.current| - 1];
      assert Plain(last);
      assert WordOk(last + [c]);
    } else if !IsSpace(c) && !IsDelim(c) {
      assert Plain(t);
    } else if !IsSpace(c) && s.token != "" {
      assert WordOk(t);
    }
  }

  lemma {:induction false} RunKeepsScanOk(s: Scan, text: string)
    requires ScanOk(s)
    ensures ScanOk(s.Run(text))
    decreases |text|
  {
    if text != "" {
      StepKeepsScanOk(s, text[0]);
      RunKeepsScanOk(s.Step(text[0]), text[1..]);
    }
  }

  /** Whatever the text, the parser's result is well formed. */
  lemma ParseIsWellFormed(text: string)
    ensures WellFormed(Parse(text))
  {
    RunKeepsScanOk(START, text);
    var s := START.Run(text);
    StepKeepsScanOk(s, ' ');
    assert s.Step(' ') == s.Flush();
  }

  // ---------------------------------------------------------------- parse after render

  lemma {:induction false} RunAppend(s: Scan, a: string, b: string)
    ensures s.Run(a + b) == s.Run(a).Run(b)
    decreases |a|
  {
    if a == "" {
      assert a + b == b;
    } else {
      assert (a + b)[1..] == a[1..] + b;
      RunAppend(s.Step(a[0]), a[1..], b);
    }
  }

  lemma {:induction false} RunLetters(s: Scan, w: string)
    requires forall i :: 0 <= i < |w| ==> !IsSpace(w[i]) && !IsDelim(w[i])
    ensures s.Run(w) == s.(token := s.token + w)
    decreases |w|
  {
    if w == "" {
      assert s.token + w == s.token;
    } else {
      RunLetters(s.Step(w[0]), w[1..]);
      assert s.token + [w[0]] + w[1..] == s.token + w;
    }
  }

  lemma RunWord(done: seq<Sentence>, current: Sentence, w: string)
    requires WordOk(w)
    ensures Scan(done, current, "").Run(w) ==
            if Ended(w) then Scan(done + [current + [w]], [], "") else Scan(done, current, w)
  {
    var s := Scan(done, current, "");
    if Ended(w) {
      var body := w[..|w| - 1];
      assert w == body + [w[|w| - 1]];
      RunAppend(s, body, [w[|w| - 1]]);
      RunLetters(s, body);
      assert "" + body == body;
      assert [w[|w| - 1]][1..] == "";
    } else {
      RunLetters(s, w);
      assert "" + w == w;
    }
  }

  lemma RunPlainThenSpace(done: seq<Sentence>, current: Sentence, w: string, rest: string)
    requires Plain(w)
    ensures Scan(done, current, "").Run(w + " " + rest) == Scan(done, current + [w], "").Run(rest)
  {
    RunAppend(Scan(done, current, ""), w + " ", rest);
    RunAppend(Scan(done, current, ""), w, " ");
    RunWord(done, current, w);
    assert " "[1..] == "";
  }

  lemma {:induction false} RunSentence(done: seq<Sentence>, current: Sentence, s: Sentence)
    requires SentenceOk(s)
    ensures Scan(done, current, "").Run(Join(s)) ==
            if Terminated(s) then Scan(done + [current + s], [], "")
            else Scan(done, current + s[..|s| - 1], s[|s| - 1])
    decreases |s|
  {
    hide Scan.Run, Scan.Step;
    var first, rest := s[0], s[1..];
    assert s == [first] + rest;
    if rest == [] {
      RunWord(done, current, first);
      assert current + [first] == current + s;
      assert current + s[..0] == current;
    } else {
      assert Plain(first);
      RunPlainThenSpace(done, current, first, Join(rest));
      RunSentence(done, current + [first], rest);
      assert current + [first] + rest == current + s;
      assert current + [first] + rest[..|rest| - 1] == current + s[..|s| - 1];
    }
  }

  lemma {:induction false} JoinNonEmpty(s: Sentence)
    requires SentenceOk(s)
    ensures Join(s) != ""
  {
  }

  lemma FinishSentence(done: seq<Sentence>, s: Sentence)
    requires SentenceOk(s)
    ensures Scan(done, [], "").Run(Join(s)).Finish() == done + [s]
  {
    hide Scan.Run, Join;
    RunSentence(done, [], s);
    assert [] + s == s;
    assert [] + s[..|s| - 1] + [s[|s| - 1]] == s;
    assert s[|s| - 1] != "";
  }

  lemma RunTerminated(done: seq<Sentence>, s: Sentence, rest: string)
    requires SentenceOk(s) && Terminated(s)
    ensures Scan(done, [], "").Run(Join(s) + " " + rest) == Scan(done + [s], [], "").Run(rest)
  {
    hide Join;
    RunSentence(done, [], s);
    assert [] + s == s;
    RunAppend(Scan(done, [], ""), Join(s) + " ", rest);
    RunAppend(Scan(done, [], ""), Join(s), " ");
    assert " "[1..] == "";
  }

  lemma {:induction false} RunRender(done: seq<Sentence>, c: seq<Sentence>)
    requires c != []
    requires forall i :: 0 <= i < |c| ==> SentenceOk(c[i])
    requires forall i :: 0 <= i < |c| - 1 ==> Terminated(c[i])
    ensures Scan(done, [], "").Run(Render(c)).Finish() == done + c
    decreases |c|
  {
    hide Scan.Run, Scan.Finish, Join;
    var first, rest := c[0], c[1..];
    if |c| == 1 {
      FinishSentence(done, first);
      assert c == [first];
      assert Render(c) == Join(first);
    } else {
      JoinNonEmpty(first);
      RunTerminated(done, first, Render(rest));
      RunRender(done + [first], rest);
      assert done + [first] + rest == done + c;
    }
  }

  /** The parser undoes the printer exactly on the well-formed collections. */
  lemma ParseRenderIffWellFormed(c: seq<Sentence>)
    ensures Parse(Render(c)) == c <==> WellFormed(c)
  {
    ParseIsWellFormed(Render(c));
    if WellFormed(c) {
      if c == [[]] {
        assert Render(c) == "";
      } else {
        RunRender([], c);
        assert [] + c == c;
      }
    }
  }

  /** One parse and print normalises a text; a second one changes nothing. */
  lemma RenderParseIdempotent(text: string)
    ensures Render(Parse(Render(Parse(text)))) == Render(Parse(text))
    ensures Parse(Render(Parse(text))) == Parse(text)
  {
    ParseIsWellFormed(text);
    ParseRenderIffWellFormed(Parse(text));
  }

  // ---------------------------------------------------------------- whitespace

  ghost predicate Blank(w: string) {
    forall i :: 0 <= i < |w| ==> IsSpace(w[i])
  }

  lemma {:induction false} RunBlank(s: Scan, w: string)
    requires Blank(w)
    ensures s.Run(w) == if w == "" then s else s.Flush()
    decreases |w|
  {
    if w != "" {
      RunBlank(s.Flush(), w[1..]);
      assert s.Flush().Flush() == s.Flush();
    }
  }

  /** Only the presence of whitespace between two pieces of text matters, never which or how much. */
  lemma WhitespaceRunsAreEqual(a: string, w: string, v: string, b: string)
    requires Blank(w) && Blank(v) && w != "" && v != ""
    ensures Parse(a + w + b) == Parse(a + v + b)
    ensures Parse(w + b) == Parse(b)
    ensures Parse(a + w) == Parse(a)
  {
    RunAppend(START, a + w, b);
    RunAppend(START, a, w);
    RunAppend(START, a + v, b);
    RunAppend(START, a, v);
    RunAppend(START, w, b);
    RunBlank(START, w);
    RunBlank(START.Run(a), w);
    RunBlank(START.Run(a), v);
  }

  // ---------------------------------------------------------------- conservation

  function NonSpace(t: string): string {
    if t == "" then "" else (if IsSpace(t[0]) then "" else [t[0]]) + NonSpace(t[1..])
  }

  /**
   The characters of `t` that survive: every letter, and every delimiter except those that,
   with whitespace ignored, come first or directly after another delimiter.
   */
  function Kept(t: string, droppable: bool := true): string
    decreases |t|
  {
    if t == "" then ""
    else if IsSpace(t[0]) then Kept(t[1..], droppable)
    else if IsDelim(t[0]) then (if droppable then "" else [t[0]]) + Kept(t[1..], true)
    else [t[0]] + Kept(t[1..], false)
  }

  function Letters(words: Sentence): string {
    if words == [] then "" else words[0] + Letters(words[1..])
  }

  function Ink(c: seq<Sentence>): string {
    if c == [] then "" else Letters(c[0]) + Ink(c[1..])
  }

  function ScanInk(s: Scan): string {
    Ink(s.done) + Letters(s.current) + s.token
  }

  lemma {:induction false} LettersAppend(a: Sentence, b: Sentence)
    ensures Letters(a + b) == Letters(a) + Letters(b)
  {
    if a == [] {
      assert a + b == b;
    } else {
      assert (a + b)[1..] == a[1..] + b;
      LettersAppend(a[1..], b);
    }
  }

  lemma {:induction false} InkAppend(a: seq<Sentence>, b: seq<Sentence>)
    ensures Ink(a + b) == Ink(a) + Ink(b)
  {
    if a == [] {
      assert a + b == b;
    } else {
      assert (a + b)[1..] == a[1..] + b;
      InkAppend(a[1..], b);
    }
  }

  lemma InkSnoc(done: seq<Sentence>, s: Sentence)
    ensures Ink(done + [s]) == Ink(done) + Letters(s)
  {
    InkAppend(done, [s]);
    assert Ink([s]) == Letters(s) + Ink([]);
  }

  lemma LettersSnoc(words: Sentence, w: string)
    ensures Letters(words + [w]) == Letters(words) + w
  {
    LettersAppend(words, [w]);
    assert Letters([w]) == w + Letters([]);
  }

  lemma FlushInk(s: Scan)
    ensures ScanInk(s.Flush()) == ScanInk(s)
  {
    LettersSnoc(s.current, s.token);
  }

  lemma CloseInk(s: Scan, c: char)
    requires !s.Fresh()
    ensures ScanInk(s.Close(c)) == ScanInk(s) + [c] && s.Close(c).Fresh()
  {
    hide Ink, Letters;
    if s.token != "" {
      LettersSnoc(s.current, s.token + [c]);
      InkSnoc(s.done, s.current + [s.token + [c]]);
    } else {
      var init, last := s.current[..|s.current| - 1], s.current[|s.current| - 1];
      assert s.current == init + [last];
      assert s.current[|s.current| - 1 := last + [c]] == init + [last + [c]];
      LettersSnoc(init, last);
      LettersSnoc(init, last + [c]);
      InkSnoc(s.done, init + [last + [c]]);
    }
    EmptyLetters();
  }

  lemma EmptyLetters()
    ensures Letters([]) == ""
  {
  }

  lemma StepInk(s: Scan, c: char)
    ensures ScanInk(s.Step(c)) ==
            ScanInk(s) + if IsSpace(c) || (IsDelim(c) && s.Fresh()) then "" else [c]
    ensures s.Step(c).Fresh() == if IsSpace(c) then s.Fresh() else IsDelim(c)
  {
    hide Ink, Letters;
    if IsSpace(c) {
      FlushInk(s);
    } else if IsDelim(c) && !s.Fresh() {
      hide Scan.Close, ScanInk;
      CloseInk(s, c);
    }
  }

  lemma {:induction false} RunInk(s: Scan, text: string)
    ensures ScanInk(s.Run(text)) == ScanInk(s) + Kept(text, s.Fresh())
    decreases |text|
  {
    if text != "" {
      StepInk(s, text[0]);
      RunInk(s.Step(text[0]), text[1..]);
    }
  }

  lemma {:induction false} NonSpaceAppend(a: string, b: string)
    ensures NonSpace(a + b) == NonSpace(a) + NonSpace(b)
  {
    if a == "" {
      assert a + b == b;
    } else {
      assert (a + b)[1..] == a[1..] + b;
      NonSpaceAppend(a[1..], b);
    }
  }

  lemma {:induction false} NonSpaceWord(w: string)
    requires forall i :: 0 <= i < |w| ==> !IsSpace(w[i])
    ensures NonSpace(w) == w
  {
    if w != "" {
      NonSpaceWord(w[1..]);
    }
  }

  lemma NonSpaceTwo(a: string, b: string)
    ensures NonSpace(a + " " + b) == NonSpace(a) + NonSpace(b)
  {
    NonSpaceAppend(a + " ", b);
    NonSpaceAppend(a, " ");
    assert NonSpace(" ") == "" + NonSpace("") == "";
  }

  lemma {:induction false} NonSpaceJoin(s: Sentence)
    requires forall i :: 0 <= i < |s| ==> WordOk(s[i])
    ensures NonSpace(Join(s)) == Letters(s)
  {
    hide NonSpace;
    if s == [] {
      NonSpaceWord("");
    } else {
      NonSpaceWord(s[0]);
      NonSpaceJoin(s[1..]);
      if |s| == 1 {
        assert Letters(s[1..]) == "";
      } else {
        NonSpaceTwo(s[0], Join(s[1..]));
      }
    }
  }

  lemma {:induction false} NonSpaceRender(c: seq<Sentence>)
    requires forall i, j :: 0 <= i < |c| && 0 <= j < |c[i]| ==> WordOk(c[i][j])
    ensures NonSpace(Render(c)) == Ink(c)
  {
    hide NonSpace, Join, WordOk, Letters;
    if c == [] {
      NonSpaceWord("");
    } else {
      NonSpaceJoin(c[0]);
      assert forall i :: 0 <= i < |c[1..]| ==> c[1..][i] == c[i + 1];
      NonSpaceRender(c[1..]);
      NonSpaceAppend(Join(c[0]), Render(c[1..]));
      NonSpaceTwo(Join(c[0]), Render(c[1..]));
    }
  }

  lemma FinishInk(s: Scan)
    ensures Ink(s.Finish()) == ScanInk(s)
  {
    FlushInk(s);
    var f := s.Flush();
    InkSnoc(f.done, f.current);
    assert Ink([[]]) == Letters([]) + Ink([]) == "";
    assert ScanInk(f) == Ink(f.done) + Letters(f.current);
  }

  /** Parsing and printing loses only whitespace and the droppable delimiters, and keeps the order. */
  lemma ParseConservesCharacters(text: string)
    ensures NonSpace(Render(Parse(text))) == Kept(text)
  {
    RunInk(START, text);
    FinishInk(START.Run(text));
    assert ScanInk(START) == "";
    assert Ink(Parse(text)) == Kept(text);
    hide Parse, Ink, Kept, NonSpace, Render;
    ParseIsWellFormed(text);
    var c := Parse(text);
    forall i, j | 0 <= i < |c| && 0 <= j < |c[i]| ensures WordOk(c[i][j]) {
      assert SentenceOk(c[i]);
    }
    NonSpaceRender(c);
  }

  // ---------------------------------------------------------------- what the last character decides

  /** After the scan a sentence is open unless the last visible character is a delimiter. */
  lemma {:induction false} RunFresh(s: Scan, text: string)
    ensures s.Run(text).Fresh() == if NonSpace(text) == "" then s.Fresh() else IsDelim(NonSpace(text)[|NonSpace(text)| - 1])
    decreases |text|
  {
    if text != "" {
      RunFresh(s.Step(text[0]), text[1..]);
    }
  }

  lemma {:induction false} NonSpaceLast(text: string)
    requires text != "" && !IsSpace(text[|text| - 1])
    ensures NonSpace(text) != "" && NonSpace(text)[|NonSpace(text)| - 1] == text[|text| - 1]
    decreases |text|
  {
    if |text| > 1 {
      NonSpaceLast(text[1..]);
    }
  }

  /** For every text: the last parsed sentence is terminated exactly when something is kept and the last visible character is a delimiter. */
  lemma TerminatedIffDelimiterLast(text: string)
    ensures Terminated(Parse(text)[|Parse(text)| - 1]) <==>
            Kept(text) != "" && NonSpace(text) != "" && IsDelim(NonSpace(text)[|NonSpace(text)| - 1])
  {
    RunFresh(START, text);
    RunKeepsScanOk(START, text);
    RunInk(START, text);
    FinishInk(START.Run(text));
    ParseIsWellFormed(text);
    var s := START.Run(text);
    assert s.Finish() == Parse(text) && Ink(Parse(text)) == Kept(text);
    hide Scan.Run;
    if Parse(text) != [[]] {
      assert SentenceOk(Parse(text)[0]);
      FirstInk(Parse(text));
    } else {
      EmptyLetters();
    }
  }

  lemma FirstInk(c: seq<Sentence>)
    requires c != [] && SentenceOk(c[0])
    ensures Ink(c) != ""
  {
    assert |c[0]| == 1 || Plain(c[0][0]);
    assert Letters(c[0]) == c[0][0] + Letters(c[0][1..]);
  }
}

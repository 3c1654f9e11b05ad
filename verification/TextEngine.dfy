/**
 The loops of the Storage Server's text engine: the scanning parser of
 src/ss/sentence_parser.c, the two-pass printer of src/ss/write_session.c and the
 statistics loop of src/ss/file_storage.c, each proved against module Sentences.
 */
module TextEngine {
  import opened CTypes
  import opened Sentences

  datatype Entry = Entry(id: int, version: int, words: Sentence)

  function WordsOf(entries: seq<Entry>): (c: seq<Sentence>)
    ensures |c| == |entries|
  {
    seq(|entries|, i requires 0 <= i < |entries| => entries[i].words)
  }

  lemma WordsOfSnoc(entries: seq<Entry>, e: Entry)
    ensures WordsOf(entries + [e]) == WordsOf(entries) + [e.words]
  {
  }

  lemma WordsOfOne(e: Entry, first: int)
    requires first <= e.id && e.version == 1
    ensures WordsOf([e]) == [e.words] && IdsClimb([e], first, e.id + 1)
  {
  }

  // ---------------------------------------------------------------- the parser's loop

  ghost function OpenToken(text: string, tokenStart: int, p: nat): string
    requires tokenStart <= p <= |text|
  {
    if tokenStart < 0 then "" else text[tokenStart..p]
  }

  /** From s, the rest of the text leads where a scan of the whole text leads. */
  ghost predicate OnTrack(s: Scan, text: string, p: nat) {
    p <= |text| && s.Run(text[p..]) == START.Run(text)
  }

  lemma OnTrackStart(text: string)
    ensures OnTrack(START, text, 0)
  {
    assert text[0..] == text;
  }

  lemma OnTrackStep(s: Scan, text: string, p: nat)
    requires OnTrack(s, text, p) && p < |text|
    ensures OnTrack(s.Step(text[p]), text, p + 1)
  {
    assert text[p..][1..] == text[p + 1..];
  }

  lemma OnTrackEnd(s: Scan, text: string)
    requires OnTrack(s, text, |text|)
    ensures Parse(text) == s.Finish()
  {
    assert text[|text|..] == "";
  }

  /** Moves the open sentence into the collection unless it has no words. */
  function FinalizeSentence(collection: seq<Entry>, current: Entry): seq<Entry> {
    if current.words == [] then collection else collection + [current]
  }

  /** The ids handed out so far climb, and all lie in [first, open). */
  ghost predicate IdsClimb(entries: seq<Entry>, first: int, open: int) {
    && (forall i :: 0 <= i < |entries| ==> first <= entries[i].id < open && entries[i].version == 1)
    && (forall i, j :: 0 <= i < j < |entries| ==> entries[i].id < entries[j].id)
  }

  lemma FinalizeFacts(collection: seq<Entry>, current: Entry, first: int)
    requires IdsClimb(collection, first, current.id) && first <= current.id && current.version == 1
    ensures IdsClimb(FinalizeSentence(collection, current), first, current.id + 1)
    ensures WordsOf(FinalizeSentence(collection, current)) ==
            if current.words == [] then WordsOf(collection) else WordsOf(collection) + [current.words]
  {
    WordsOfSnoc(collection, current);
  }

  lemma NothingAttached(words: Sentence, token: string, c: char)
    ensures Attach(words, token, c) == [] <==> words == [] && token == ""
  {
  }

  lemma NothingScanned(text: string, startId: int)
    ensures OnTrack(Scan(WordsOf([]), [], ""), text, 0) && IdsClimb([], startId, startId)
  {
    OnTrackStart(text);
  }

  method ParseText(text: string, startId: int) returns (collection: seq<Entry>, nextId: int)
    ensures WordsOf(collection) == Parse(text)
    ensures IdsClimb(collection, startId, nextId)
  {
    hide OnTrack, Scan.Run, IdsClimb, WordsOf, Attach, Parse;
    collection := [];
    nextId := startId;
    var current := Entry(nextId, 1, []);
    nextId := nextId + 1;
    var p, tokenStart := 0, -1;
    NothingScanned(text, startId);
    while p < |text|
      invariant 0 <= p <= |text| && -1 <= tokenStart && (tokenStart >= 0 ==> tokenStart < p)
      invariant OnTrack(Scan(WordsOf(collection), current.words, OpenToken(text, tokenStart, p)), text, p)
      invariant IdsClimb(collection, startId, current.id)
      invariant startId <= current.id && current.id + 1 == nextId && current.version == 1
    {
      var c := text[p];
      ghost var token := OpenToken(text, tokenStart, p);
      ghost var scan := Scan(WordsOf(collection), current.words, token);
      assert token != "" <==> tokenStart >= 0;
      OnTrackStep(scan, text, p);
      if IsSpace(c) {
        if tokenStart >= 0 {
          current := current.(words := current.words + [text[tokenStart..p]]);
          tokenStart := -1;
        }
      } else if IsDelim(c) {
        var open := if tokenStart >= 0 then text[tokenStart..p] else "";
        NothingAttached(current.words, open, c);
        current := current.(words := Attach(current.words, open, c));
        tokenStart := -1;
        FinalizeFacts(collection, current, startId);
        collection := FinalizeSentence(collection, current);
        current := Entry(nextId, 1, []);
        nextId := nextId + 1;
      } else {
        if tokenStart < 0 {
          tokenStart := p;
        }
        assert text[tokenStart..p + 1] == token + [c];
      }
      p := p + 1;
    }
    OnTrackEnd(Scan(WordsOf(collection), current.words, OpenToken(text, tokenStart, p)), text);
    if tokenStart >= 0 {
      current := current.(words := current.words + [text[tokenStart..p]]);
    }
    FinalizeFacts(collection, current, startId);
    collection := FinalizeSentence(collection, current);
    if |collection| == 0 {
      WordsOfOne(Entry(nextId, 1, []), startId);
      collection := [Entry(nextId, 1, [])];
      nextId := nextId + 1;
    }
  }

  // ---------------------------------------------------------------- the printer's loops

  function Separator(c: seq<Sentence>, i: nat): string
    requires i < |c|
  {
    if i + 1 < |c| && Join(c[i]) != "" then " " else ""
  }

  /** What stands in the buffer when the printer reaches sentence n. */
  function RenderUpTo(c: seq<Sentence>, n: nat): string
    requires n <= |c|
  {
    if n == 0 then "" else RenderUpTo(c, n - 1) + Join(c[n - 1]) + Separator(c, n - 1)
  }

  function Offset(c: seq<Sentence>, n: nat): nat
    requires n <= |c|
  {
    |RenderUpTo(c, n)|
  }

  lemma RenderHead(c: seq<Sentence>, n: nat)
    requires n < |c|
    ensures Render(c[n..]) == Join(c[n]) + Separator(c, n) + Render(c[n + 1..])
  {
    assert c[n..][1..] == c[n + 1..];
  }

  lemma {:induction false} RenderSplits(c: seq<Sentence>, n: nat)
    requires n <= |c|
    ensures RenderUpTo(c, n) + Render(c[n..]) == Render(c)
  {
    hide Render, Join, Separator;
    if n == 0 {
      assert c[0..] == c;
    } else {
      RenderSplits(c, n - 1);
      RenderHead(c, n - 1);
      Regroup(RenderUpTo(c, n - 1), Join(c[n - 1]), Separator(c, n - 1));
      Regroup(RenderUpTo(c, n - 1), Join(c[n - 1]) + Separator(c, n - 1), Render(c[n..]));
    }
  }

  /** The recorded slice of each sentence is that sentence's words joined by single spaces. */
  lemma SliceIsSentence(c: seq<Sentence>, i: nat)
    requires i < |c|
    ensures Offset(c, i) + |Join(c[i])| <= |Render(c)|
    ensures Render(c)[Offset(c, i)..Offset(c, i) + |Join(c[i])|] == Join(c[i])
  {
    hide RenderUpTo, Render, Join, Separator;
    RenderSplits(c, i);
    RenderHead(c, i);
    SliceOf(RenderUpTo(c, i), Join(c[i]), Separator(c, i), Render(c[i + 1..]), Render(c));
  }

  lemma SliceOf(a: string, b: string, sep: string, rest: string, text: string)
    requires text == a + (b + sep + rest)
    ensures |a| + |b| <= |text| && text[|a|..|a| + |b|] == b
  {
  }

  /** Slices come in order and never overlap; a sentence with text and the next one are exactly one space apart. */
  lemma {:induction false} SlicesAreDisjoint(c: seq<Sentence>, i: nat, j: nat)
    requires i < j < |c|
    ensures Offset(c, i) + |Join(c[i])| + (if Join(c[i]) == "" then 0 else 1) <= Offset(c, j)
    ensures j == i + 1 ==> Offset(c, i) + |Join(c[i])| + (if Join(c[i]) == "" then 0 else 1) == Offset(c, j)
    decreases j
  {
    if i + 1 < j {
      SlicesAreDisjoint(c, i, j - 1);
    }
  }

  lemma {:induction false} JoinSnoc(words: Sentence, w: string)
    ensures Join(words + [w]) == if words == [] then w else Join(words) + " " + w
  {
    if words == [] {
      assert words + [w] == [w];
    } else {
      assert (words + [w])[1..] == words[1..] + [w];
      JoinSnoc(words[1..], w);
      if |words| == 1 {
        assert words[1..] == [];
        assert Join(words + [w]) == words[0] + " " + w;
      }
    }
  }

  lemma JoinTake(words: Sentence, w: nat)
    requires w < |words|
    ensures Join(words[..w + 1]) == Join(words[..w]) + (if w > 0 then " " else "") + words[w]
  {
    assert words[..w + 1] == words[..w] + [words[w]];
    JoinSnoc(words[..w], words[w]);
  }

  /** First pass of render_collection: how much room the text needs. */
  method MeasureCollection(c: seq<Sentence>) returns (total: nat)
    ensures total == |Render(c)|
  {
    total := 0;
    for i := 0 to |c|
      invariant total == |RenderUpTo(c, i)|
    {
      var sentenceLen := 0;
      for w := 0 to |c[i]|
        invariant sentenceLen == |Join(c[i][..w])|
      {
        JoinTake(c[i], w);
        if w > 0 {
          sentenceLen := sentenceLen + 1;
        }
        sentenceLen := sentenceLen + |c[i][w]|;
      }
      assert c[i][..|c[i]|] == c[i];
      total := total + sentenceLen;
      if i + 1 < |c| && sentenceLen > 0 {
        total := total + 1;
      }
    }
    RenderUpToAll(c);
  }

  /** memcpy of one word into the buffer. */
  method CopyWord(buffer: array<char>, pos: nat, word: string)
    requires pos + |word| <= buffer.Length
    modifies buffer
    ensures buffer[..pos + |word|] == old(buffer[..pos]) + word
  {
    forall k | 0 <= k < |word| {
      buffer[pos + k] := word[k];
    }
  }

  /** One sentence of the second pass: words separated by single spaces, written at pos. */
  method WriteSentence(buffer: array<char>, start: nat, words: Sentence) returns (pos: nat)
    requires start + |Join(words)| <= buffer.Length
    modifies buffer
    ensures pos == start + |Join(words)|
    ensures buffer[..pos] == old(buffer[..start]) + Join(words)
  {
    pos := start;
    assert Join(words[..0]) == "";
    hide Join;
    for w := 0 to |words|
      invariant pos == start + |Join(words[..w])|
      invariant pos <= buffer.Length
      invariant buffer[..pos] == old(buffer[..start]) + Join(words[..w])
    {
      JoinTake(words, w);
      JoinPrefixFits(words, w + 1);
      if w > 0 {
        CopyWord(buffer, pos, " ");
        pos := pos + 1;
      }
      CopyWord(buffer, pos, words[w]);
      pos := pos + |words[w]|;
    }
    assert words[..|words|] == words;
  }

  lemma {:induction false} JoinPrefixFits(words: Sentence, w: nat)
    requires w <= |words|
    ensures |Join(words[..w])| <= |Join(words)|
    decreases |words| - w
  {
    if w == |words| {
      assert words[..w] == words;
    } else {
      JoinTake(words, w);
      JoinPrefixFits(words, w + 1);
    }
  }

  method WriteSeparator(buffer: array<char>, pos: nat, sentenceLen: nat, c: seq<Sentence>, i: nat) returns (next: nat)
    requires i < |c| && sentenceLen == |Join(c[i])|
    requires pos + |Separator(c, i)| <= buffer.Length
    modifies buffer
    ensures next == pos + |Separator(c, i)|
    ensures buffer[..next] == old(buffer[..pos]) + Separator(c, i)
  {
    next := pos;
    if i + 1 < |c| && sentenceLen > 0 {
      CopyWord(buffer, pos, " ");
      next := pos + 1;
    }
  }

  lemma RenderUpToFits(c: seq<Sentence>, i: nat)
    requires i < |c|
    ensures RenderUpTo(c, i + 1) == RenderUpTo(c, i) + Join(c[i]) + Separator(c, i)
    ensures Offset(c, i) + |Join(c[i])| + |Separator(c, i)| <= |Render(c)|
  {
    RenderSplits(c, i + 1);
  }

  ghost predicate Holds(buffer: array<char>, pos: nat, text: string)
    reads buffer
  {
    pos <= buffer.Length && buffer[..pos] == text
  }

  /** One turn of the second pass: the sentence, then the space that separates it from the next. */
  method WriteBlock(buffer: array<char>, start: nat, c: seq<Sentence>, i: nat) returns (length: nat, next: nat)
    requires i < |c| && buffer.Length == |Render(c)| + 1
    requires start == Offset(c, i) && Holds(buffer, start, RenderUpTo(c, i))
    modifies buffer
    ensures length == |Join(c[i])|
    ensures next == Offset(c, i + 1) < buffer.Length && Holds(buffer, next, RenderUpTo(c, i + 1))
  {
    hide Render, RenderUpTo, Join, Separator;
    RenderUpToFits(c, i);
    var pos := WriteSentence(buffer, start, c[i]);
    length := pos - start;
    next := WriteSeparator(buffer, pos, length, c, i);
  }

  lemma RenderUpToAll(c: seq<Sentence>)
    ensures RenderUpTo(c, |c|) == Render(c)
  {
    RenderSplits(c, |c|);
    assert c[|c|..] == [];
  }

  /** The first n entries of the two arrays give place and length of the first n sentences. */
  ghost predicate Recorded(offsets: array<nat>, lengths: array<nat>, c: seq<Sentence>, n: nat)
    requires n <= |c| == offsets.Length == lengths.Length
    reads offsets, lengths
  {
    forall i :: 0 <= i < n ==> offsets[i] == Offset(c, i) && lengths[i] == |Join(c[i])|
  }

  method RecordSlice(offsets: array<nat>, lengths: array<nat>, start: nat, length: nat, ghost c: seq<Sentence>, i: nat)
    requires i < |c| == offsets.Length == lengths.Length && offsets != lengths
    requires Recorded(offsets, lengths, c, i) && start == Offset(c, i) && length == |Join(c[i])|
    modifies offsets, lengths
    ensures Recorded(offsets, lengths, c, i + 1)
  {
    hide Offset, Join;
    offsets[i] := start;
    lengths[i] := length;
  }

  /** Ends the text with a NUL, for which the buffer has one character of room left. */
  method Seal(buffer: array<char>, pos: nat, ghost expected: string) returns (text: string)
    requires pos < buffer.Length && Holds(buffer, pos, expected)
    modifies buffer
    ensures text == expected
  {
    text := buffer[..pos];
    buffer[pos] := '\0';
  }

  lemma NothingHeld(buffer: array<char>, c: seq<Sentence>)
    ensures Holds(buffer, 0, RenderUpTo(c, 0)) && Offset(c, 0) == 0
  {
  }

  /**
   Both passes of render_collection. That every write lands inside a buffer of exactly the
   measured size is the proof that the two passes agree.
   */
  method RenderCollection(c: seq<Sentence>, offsets: array<nat>, lengths: array<nat>) returns (text: string)
    requires offsets.Length == |c| == lengths.Length && offsets != lengths
    modifies offsets, lengths
    ensures text == Render(c)
    ensures Recorded(offsets, lengths, c, |c|)
  {
    var total := MeasureCollection(c);
    var buffer := new char[total + 1];
    var pos := 0;
    hide Render, RenderUpTo, Join, Separator, Offset, Holds;
    NothingHeld(buffer, c);
    for i := 0 to |c|
      invariant pos == Offset(c, i) && pos <= total
      invariant Holds(buffer, pos, RenderUpTo(c, i))
      invariant Recorded(offsets, lengths, c, i)
    {
      var start, length := pos, 0;
      length, pos := WriteBlock(buffer, start, c, i);
      RecordSlice(offsets, lengths, start, length, c, i);
    }
    RenderUpToAll(c);
    text := Seal(buffer, pos, Render(c));
  }

  // ---------------------------------------------------------------- word and character totals

  /** The statistics loop knows only four of the six whitespace characters. */
  predicate StatSpace(c: char) {
    c == ' ' || c == '\t' || c == '\n' || c == '\r'
  }

  function CountWords(text: string, inWord: bool): nat
    decreases |text|
  {
    if text == "" then 0
    else if StatSpace(text[0]) then CountWords(text[1..], false)
    else (if inWord then 0 else 1) + CountWords(text[1..], true)
  }

  /** A word starts here: at what is not one of the four characters, with one of them or nothing before it. */
  predicate StartsWord(text: string, i: nat)
    requires i < |text|
  {
    text[i] !in " \t\n\r" && (i == 0 || text[i - 1] in " \t\n\r")
  }

  /** Where words start from position n on. */
  ghost function WordStarts(text: string, n: nat): set<nat> {
    set i: nat | n <= i < |text| && StartsWord(text, i)
  }

  lemma StartsMore(text: string, n: nat)
    requires n < |text|
    ensures WordStarts(text, n) == if StartsWord(text, n) then {n} + WordStarts(text, n + 1) else WordStarts(text, n + 1)
    ensures |WordStarts(text, n)| == |WordStarts(text, n + 1)| + if StartsWord(text, n) then 1 else 0
  {
    hide StartsWord;
    assert WordStarts(text, n) == if StartsWord(text, n) then {n} + WordStarts(text, n + 1) else WordStarts(text, n + 1);
  }

  lemma StartsIff(text: string, n: nat)
    requires n < |text|
    ensures StartsWord(text, n) <==> !StatSpace(text[n]) && (n == 0 || StatSpace(text[n - 1]))
  {
  }

  lemma {:induction false} CountsStarts(text: string, n: nat)
    requires n <= |text|
    ensures CountWords(text[n..], n > 0 && !StatSpace(text[n - 1])) == |WordStarts(text, n)|
    decreases |text| - n
  {
    if n == |text| {
      assert WordStarts(text, n) == {};
    } else {
      hide StartsWord, StatSpace, WordStarts;
      CountsStarts(text, n + 1);
      StartsMore(text, n);
      StartsIff(text, n);
      assert text[n..][0] == text[n] && text[n..][1..] == text[n + 1..];
    }
  }

  /** For any text the count is the number of maximal runs between the four characters. */
  lemma CountIsRuns(text: string)
    ensures CountWords(text, false) == |WordStarts(text, 0)|
  {
    CountsStarts(text, 0);
    assert text[0..] == text;
  }

  function TotalWords(c: seq<Sentence>): nat {
    if c == [] then 0 else |c[0]| + TotalWords(c[1..])
  }

  method CountFileStats(content: string) returns (words: nat, chars: nat)
    ensures words == CountWords(content, false)
    ensures chars == |content|
  {
    words, chars := 0, 0;
    var inWord := false;
    var p := 0;
    assert content[0..] == content;
    while p < |content|
      invariant 0 <= p <= |content| && chars == p
      invariant words + CountWords(content[p..], inWord) == CountWords(content, false)
    {
      assert content[p..][1..] == content[p + 1..];
      chars := chars + 1;
      if StatSpace(content[p]) {
        inWord := false;
      } else {
        if !inWord {
          words := words + 1;
          inWord := true;
        }
      }
      p := p + 1;
    }
  }

  lemma {:induction false} CountOneWord(w: string, rest: string, inWord: bool)
    requires WordOk(w) || (w == "" && inWord)
    requires forall i :: 0 <= i < |w| ==> !StatSpace(w[i])
    ensures CountWords(w + rest, inWord) == (if inWord then 0 else 1) + CountWords(rest, true)
    decreases |w|
  {
    if w == "" {
      assert w + rest == rest;
    } else {
      assert (w + rest)[1..] == w[1..] + rest;
      CountLetters(w[1..], rest);
    }
  }

  lemma {:induction false} CountLetters(w: string, rest: string)
    requires forall i :: 0 <= i < |w| ==> !StatSpace(w[i])
    ensures CountWords(w + rest, true) == CountWords(rest, true)
    decreases |w|
  {
    if w == "" {
      assert w + rest == rest;
    } else {
      assert (w + rest)[1..] == w[1..] + rest;
      CountLetters(w[1..], rest);
    }
  }

  lemma {:induction false} CountSentence(s: Sentence, rest: string)
    requires s != [] && forall i :: 0 <= i < |s| ==> WordOk(s[i])
    ensures CountWords(Join(s) + rest, false) == |s| + CountWords(rest, true)
    decreases |s|
  {
    if |s| == 1 {
      CountOneWord(s[0], rest, false);
    } else {
      var tail := " " + (Join(s[1..]) + rest);
      assert Join(s) + rest == s[0] + tail;
      CountOneWord(s[0], tail, false);
      assert tail[1..] == Join(s[1..]) + rest;
      CountSentence(s[1..], rest);
    }
  }

  /** On a well-formed collection, counting the printed text gives the collection's word total. */
  lemma {:induction false} StatsOfRender(c: seq<Sentence>)
    requires forall i :: 0 <= i < |c| ==> SentenceOk(c[i])
    ensures CountWords(Render(c), false) == TotalWords(c)
    decreases |c|
  {
    if c != [] {
      assert SentenceOk(c[0]);
      assert forall i :: 0 <= i < |c[0]| ==> WordOk(c[0][i]);
      StatsOfRender(c[1..]);
      if |c| == 1 {
        assert c[1..] == [];
        CountSentence(c[0], "");
        assert Join(c[0]) + "" == Join(c[0]);
      } else {
        JoinNonEmpty(c[0]);
        var tail := " " + Render(c[1..]);
        assert Render(c) == Join(c[0]) + tail;
        CountSentence(c[0], tail);
        assert tail[1..] == Render(c[1..]);
      }
    }
  }

  lemma StatsOfWellFormed(c: seq<Sentence>)
    requires WellFormed(c)
    ensures CountWords(Render(c), false) == TotalWords(c)
  {
    if c == [[]] {
      assert TotalWords(c) == 0 + TotalWords(c[1..]);
    } else {
      StatsOfRender(c);
    }
  }
}

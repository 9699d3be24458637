/** The command-line tokenizer: Splitline's loops, what they compute, and the printer they invert. */
module Splitline {
  import opened Octets
  import opened Wrappers

  type Text = seq<Byte>

  const SPACE: Byte := 32
  const QUOTE: Byte := 34
  const BACKSLASH: Byte := 92

  /** `c < 33` for a signed char: control characters, the blank, and every byte of 128 or more. */
  predicate Blank(c: Byte) {
    c < 33 || c >= 128
  }

  // ---------- What parsing means ----------

  /** A word found between two offsets of the line. */
  datatype Span = Span(start: nat, end: nat, quoted: bool, closed: bool)

  function SkipBlanks(line: Text, o: nat): (r: nat)
    requires o <= |line|
    ensures o <= r <= |line| && (r < |line| ==> !Blank(line[r]))
    decreases |line| - o
  {
    if o < |line| && Blank(line[o]) then SkipBlanks(line, o + 1) else o
  }

  /** The end of a quoted word, and whether a quote without a backslash before it was found. */
  function QuoteEnd(line: Text, prev: nat, o: nat): (r: (nat, bool))
    requires o <= |line| && (o < |line| ==> prev <= o)
    ensures o <= r.0 <= |line| && (r.1 ==> o < r.0) && (!r.1 ==> r.0 == |line|)
    decreases |line| - o
  {
    if o == |line| then (o, false)
    else if line[o] == QUOTE && line[prev] != BACKSLASH then (o + 1, true)
    else QuoteEnd(line, o, o + 1)
  }

  function PlainEnd(line: Text, o: nat): (r: nat)
    requires o <= |line|
    ensures o <= r <= |line|
    decreases |line| - o
  {
    if o == |line| || Blank(line[o]) then o else PlainEnd(line, o + 1)
  }

  /** The next word at or after an offset. */
  function NextSpan(line: Text, o: nat): (r: Option<Span>)
    requires o <= |line|
    ensures r.Some? ==> o <= r.value.start < r.value.end <= |line|
    ensures r.Some? && r.value.closed ==> r.value.quoted && r.value.end >= r.value.start + 2
  {
    var s := SkipBlanks(line, o);
    if s == |line| then None
    else if line[s] == QUOTE then
      var (e, closed) := QuoteEnd(line, s + 1, s + 1);
      if e == s + 1 then None else Some(Span(s, e, true, closed))
    else Some(Span(s, PlainEnd(line, s), false, false))
  }

  /** Removes the backslash of every escaped quote, left to right. */
  function Unescape(w: Text): Text {
    if |w| < 2 then w
    else if w[0] == BACKSLASH && w[1] == QUOTE then [QUOTE] + Unescape(w[2..])
    else [w[0]] + Unescape(w[1..])
  }

  /** The word a span stands for; an unclosed quote takes the line from its second byte. */
  function WordOf(line: Text, s: Span): Text
    requires s.start < s.end <= |line| && (s.closed ==> s.end >= s.start + 2)
  {
    if !s.quoted then line[s.start..s.end]
    else if s.closed then Unescape(line[s.start + 1..s.end - 1])
    else Unescape(line[1..])
  }

  /** All words from an offset on. */
  function Spans(line: Text, o: nat): (r: seq<Span>)
    requires o <= |line|
    ensures forall k :: 0 <= k < |r| ==>
              o <= r[k].start < r[k].end <= |line| && (r[k].closed ==> r[k].end >= r[k].start + 2)
    decreases |line| - o
  {
    match NextSpan(line, o)
    case None => []
    case Some(s) => [s] + Spans(line, s.end)
  }

  function Words(line: Text, o: nat): (r: seq<Text>)
    requires o <= |line|
    ensures |r| == |Spans(line, o)|
    decreases |line| - o
  {
    match NextSpan(line, o)
    case None => []
    case Some(s) => [WordOf(line, s)] + Words(line, s.end)
  }

  function Starts(line: Text, o: nat): (r: seq<nat>)
    requires o <= |line|
    ensures |r| == |Spans(line, o)|
    decreases |line| - o
  {
    match NextSpan(line, o)
    case None => []
    case Some(s) => [s.start] + Starts(line, s.end)
  }

  // ---------- The program ----------

  lemma EmptyLine()
    ensures Words([], 0) == [] && Starts([], 0) == []
  {
  }

  lemma OneMore(line: Text, o: nat)
    requires o <= |line| && NextSpan(line, o).Some?
    ensures var s := NextSpan(line, o).value;
            && Words(line, o) == [WordOf(line, s)] + Words(line, s.end)
            && Starts(line, o) == [s.start] + Starts(line, s.end)
  {
    hide NextSpan, WordOf;
  }

  lemma NoMore(line: Text, o: nat)
    requires o <= |line| && NextSpan(line, o).None?
    ensures Words(line, o) == [] && Starts(line, o) == []
  {
    hide NextSpan, WordOf;
  }

  predicate IsEscape(w: Text, i: nat) {
    i + 1 < |w| && w[i] == BACKSLASH && w[i + 1] == QUOTE
  }

  /** The first escaped quote at or after an offset, and what that means for unescaping from there. */
  ghost predicate FirstEscape(w: Text, from: nat, found: Option<nat>)
    requires from <= |w|
  {
    match found
    case None => Unescape(w[from..]) == w[from..]
    case Some(f) =>
      && from <= f && IsEscape(w, f)
      && Unescape(w[from..]) == w[from..f] + [QUOTE] + Unescape(w[f + 2..])
  }

  /** std::string::find for backslash-quote. */
  method FindEscape(w: Text, from: nat) returns (found: Option<nat>)
    requires from <= |w|
    ensures FirstEscape(w, from, found)
  {
    hide Unescape;
    var i := from;
    assert w[from..from] + Unescape(w[from..]) == Unescape(w[from..]);
    while i + 1 < |w|
      invariant from <= i <= |w|
      invariant Unescape(w[from..]) == w[from..i] + Unescape(w[i..])
    {
      UnescapeStep(w, i);
      if w[i] == BACKSLASH && w[i + 1] == QUOTE {
        assert w[from..i] + ([QUOTE] + Unescape(w[i + 2..])) == w[from..i] + [QUOTE] + Unescape(w[i + 2..]);
        return Some(i);
      }
      assert w[from..i + 1] == w[from..i] + [w[i]];
      i := i + 1;
    }
    UnescapeShort(w[i..]);
    assert w[from..i] + w[i..] == w[from..];
    return None;
  }

  lemma UnescapeStep(w: Text, i: nat)
    requires i + 1 < |w|
    ensures IsEscape(w, i) ==> Unescape(w[i..]) == [QUOTE] + Unescape(w[i + 2..])
    ensures !IsEscape(w, i) ==> Unescape(w[i..]) == [w[i]] + Unescape(w[i + 1..])
  {
    assert w[i..][1..] == w[i + 1..] && w[i..][2..] == w[i + 2..];
  }

  lemma UnescapeShort(w: Text)
    requires |w| < 2
    ensures Unescape(w) == w
  {
  }

  /** Erasing the backslash settles everything up to and including the quote. */
  lemma EraseStep(w: Text, at: nat, f: nat)
    requires at <= |w| && FirstEscape(w, at, Some(f))
    ensures var w' := w[..f] + w[f + 1..];
            w[..at] + Unescape(w[at..]) == w'[..f + 1] + Unescape(w'[f + 1..])
  {
    hide Unescape;
    var w' := w[..f] + w[f + 1..];
    assert w'[..f + 1] == w[..at] + (w[at..f] + [QUOTE]);
    assert w'[f + 1..] == w[f + 2..];
  }

  class SplitlineObject {
    var startQuote: bool
    var endQuote: bool
    var word: seq<Text>
    var line: Text
    var wordPtr: seq<nat>

    constructor ()
      ensures word == [] && line == [] && wordPtr == []
    {
      startQuote, endQuote, word, line, wordPtr := false, false, [], [], [];
    }

    /** reset clears the words but not their offsets. */
    method Reset()
      modifies this`word
      ensures word == []
    {
      word := [];
    }

    /** getWord; `o1` is taken by reference in the original, here its new value is returned. */
    method GetWord(o1: nat) returns (start: nat, o2: nat)
      requires o1 <= |line|
      modifies this`startQuote, this`endQuote
      ensures match NextSpan(line, o1)
              case None => o2 == 0
              case Some(s) => start == s.start && o2 == s.end && startQuote == s.quoted && endQuote == s.closed
      ensures o2 == 0 || o1 < o2
      ensures o2 != 0 ==> o1 <= start < o2 <= |line| && (startQuote <==> line[start] == 34)
      ensures o2 != 0 ==> forall i :: o1 <= i < start ==> line[i] < 33 || line[i] >= 128
      ensures o2 != 0 && !startQuote ==> forall i :: start <= i < o2 ==> 33 <= line[i] <= 127
      ensures o2 != 0 && !startQuote && o2 < |line| ==> line[o2] < 33 || line[o2] >= 128
    {
      var end := |line|;
      start, o2 := o1, 0;
      while start < end && Blank(line[start])
        invariant o1 <= start <= end
        invariant SkipBlanks(line, o1) == SkipBlanks(line, start)
        invariant forall i :: o1 <= i < start ==> line[i] < 33 || line[i] >= 128
      {
        start := start + 1;
      }
      if start == end {
        return;
      }
      startQuote := line[start] == QUOTE;
      endQuote := false;
      o2 := start + if startQuote then 1 else 0;
      var prev := o2;
      ghost var from := o2;
      while o2 < end
        invariant from <= o2 <= end && prev <= o2 && !endQuote
        invariant startQuote ==> QuoteEnd(line, from, from) == QuoteEnd(line, prev, o2)
        invariant !startQuote ==> PlainEnd(line, from) == PlainEnd(line, o2)
        invariant !startQuote ==> forall i :: from <= i < o2 ==> 33 <= line[i] <= 127
      {
        if startQuote {
          if line[o2] == QUOTE && line[prev] != BACKSLASH {
            o2 := o2 + 1;
            endQuote := true;
            break;
          }
        } else {
          if Blank(line[o2]) {
            break;
          }
        }
        prev := o2;
        o2 := o2 + 1;
      }
      if o2 == start || (startQuote && o2 == start + 1) {
        o2 := 0;
      }
    }

    /** The erase loop of addWord. */
    method RemoveSlashes(quotedText: Text) returns (wrd: Text)
      ensures wrd == Unescape(quotedText)
    {
      hide Unescape;
      wrd := quotedText;
      var at: nat := 0;
      var found := FindEscape(wrd, 0);
      assert wrd[0..] == wrd && wrd[..0] + Unescape(wrd) == Unescape(wrd);
      while found.Some?
        invariant at <= |wrd| && FirstEscape(wrd, at, found)
        invariant Unescape(quotedText) == wrd[..at] + Unescape(wrd[at..])
        decreases |wrd| - at
      {
        EraseStep(wrd, at, found.value);
        at := found.value + 1;
        wrd := wrd[..found.value] + wrd[found.value + 1..];
        found := FindEscape(wrd, at);
      }
      assert wrd[..at] + wrd[at..] == wrd;
    }

    method AddWord(o1: nat, o2: nat)
      requires o1 < o2 <= |line| && (endQuote ==> o2 >= o1 + 2)
      modifies this`word, this`wordPtr
      ensures wordPtr == old(wordPtr) + [o1]
      ensures word == old(word) + [WordOf(line, Span(o1, o2, startQuote, startQuote && endQuote))]
    {
      wordPtr := wordPtr + [o1];
      if startQuote {
        var wrd: Text;
        if endQuote {
          wrd := line[o1 + 1..o2 - 1];
        } else {
          wrd := line[1..];
        }
        wrd := RemoveSlashes(wrd);
        word := word + [wrd];
      } else {
        word := word + [line[o1..o2]];
      }
    }

    /** parse. An empty line leaves the stored line alone; offsets of earlier lines are kept. */
    method Parse(inLine: Text)
      modifies this
      ensures word == Words(inLine, 0)
      ensures wordPtr == old(wordPtr) + Starts(inLine, 0)
      ensures line == if inLine == [] then old(line) else inLine
    {
      hide NextSpan, WordOf, Words, Starts, Spans;
      Reset();
      if |inLine| == 0 {
        EmptyLine();
        return;
      }
      line := inLine;
      var o1 := 0;
      while true
        invariant line == inLine && o1 <= |line|
        invariant word + Words(inLine, o1) == Words(inLine, 0)
        invariant wordPtr + Starts(inLine, o1) == old(wordPtr) + Starts(inLine, 0)
        decreases |line| - o1
      {
        var start, o2 := GetWord(o1);
        if o2 == 0 {
          NoMore(inLine, o1);
          break;
        }
        OneMore(inLine, o1);
        AddWord(start, o2);
        o1 := o2;
      }
    }
  }

  // ---------- Printing and reading back ----------

  /** A backslash before every quote. */
  function Escape(w: Text): Text {
    if w == [] then []
    else if w[0] == QUOTE then [BACKSLASH, QUOTE] + Escape(w[1..])
    else [w[0]] + Escape(w[1..])
  }

  function Quoted(w: Text): (q: Text)
    ensures |q| >= 2
  {
    [QUOTE] + Escape(w) + [QUOTE]
  }

  /** Every word quoted, separated by blanks. */
  function Print(ws: seq<Text>): Text {
    if ws == [] then [] else Quoted(ws[0]) + PrintRest(ws[1..])
  }

  function PrintRest(ws: seq<Text>): Text {
    if ws == [] then [] else [SPACE] + (Quoted(ws[0]) + PrintRest(ws[1..]))
  }

  predicate EndsInBackslash(w: Text) {
    w != [] && w[|w| - 1] == BACKSLASH
  }

  lemma {:induction false} UnescapeEscape(w: Text)
    ensures Unescape(Escape(w)) == w
  {
    if w != [] {
      UnescapeEscape(w[1..]);
      if w[0] == QUOTE {
        assert Escape(w)[2..] == Escape(w[1..]);
      } else {
        assert Escape(w)[1..] == Escape(w[1..]);
        assert Escape(w[1..]) != [] ==> Escape(w[1..])[0] != QUOTE;
      }
    }
  }

  /** Unescaping keeps the last byte. */
  lemma {:induction false} LastKept(w: Text)
    requires w != []
    ensures Unescape(w) != [] && Unescape(w)[|Unescape(w)| - 1] == w[|w| - 1]
    decreases |w|
  {
    if |w| >= 2 {
      if IsEscape(w, 0) {
        if |w| > 2 {
          LastKept(w[2..]);
        }
      } else {
        LastKept(w[1..]);
      }
    }
  }

  lemma SuffixStep(line: Text, o: nat, c: Byte, rest: Text)
    requires o < |line| && line[o..] == [c] + rest
    ensures line[o] == c && line[o + 1..] == rest
  {
    assert line[o] == line[o..][0];
    assert line[o + 1..] == line[o..][1..];
  }

  /** Scanning an escaped word from anywhere inside the quotes reaches the byte after it, with the
      last byte of the word before it. */
  lemma {:induction false} ScanEscaped(line: Text, prev: nat, o: nat, w: Text, rest: Text) returns (prev': nat, o': nat)
    requires o < |line| && prev <= o && line[o..] == Escape(w) + rest && rest != []
    ensures prev' <= o' < |line| && line[o'..] == rest && o' == o + |Escape(w)|
    ensures QuoteEnd(line, prev, o) == QuoteEnd(line, prev', o')
    ensures w != [] ==> line[prev'] == w[|w| - 1]
    ensures w == [] ==> prev' == prev
    decreases |w|
  {
    prev', o' := prev, o;
    if w != [] {
      if w[0] == QUOTE {
        var tail := Escape(w[1..]) + rest;
        assert line[o..] == [BACKSLASH] + ([QUOTE] + tail);
        SuffixStep(line, o, BACKSLASH, [QUOTE] + tail);
        SuffixStep(line, o + 1, QUOTE, tail);
        assert QuoteEnd(line, prev, o) == QuoteEnd(line, o, o + 1) == QuoteEnd(line, o + 1, o + 2);
        assert o + 2 < |line|;
        prev', o' := ScanEscaped(line, o + 1, o + 2, w[1..], rest);
      } else {
        var tail := Escape(w[1..]) + rest;
        assert line[o..] == [w[0]] + tail;
        SuffixStep(line, o, w[0], tail);
        assert o + 1 < |line|;
        prev', o' := ScanEscaped(line, o, o + 1, w[1..], rest);
      }
    }
  }

  /** Up to the closing quote of a printed word. */
  lemma OpenQuote(line: Text, s: nat, w: Text, post: Text) returns (prev: nat, q: nat)
    requires s < |line| && line[s..] == Quoted(w) + post
    ensures q == s + 1 + |Escape(w)|
    ensures s < q < |line| && line[s] == QUOTE
    ensures line[s + 1..q] == Escape(w) && line[q] == QUOTE && line[q + 1..] == post
    ensures prev <= q && QuoteEnd(line, s + 1, s + 1) == QuoteEnd(line, prev, q)
    ensures line[prev] == BACKSLASH <==> EndsInBackslash(w)
  {
    var close := [QUOTE] + post;
    var body := Escape(w) + close;
    hide Escape;
    assert line[s..] == [QUOTE] + body;
    SuffixStep(line, s, QUOTE, body);
    prev, q := ScanEscaped(line, s + 1, s + 1, w, close);
    assert line[s + 1..q] == line[s + 1..][..|Escape(w)|];
    SuffixStep(line, q, QUOTE, post);
    EscapeEmpty();
  }

  lemma EscapeEmpty()
    ensures Escape([]) == []
  {
  }

  lemma QuotedSpan(line: Text, o: nat, s: nat, e: nat, closed: bool)
    requires o <= |line| && SkipBlanks(line, o) == s && s < |line| && line[s] == QUOTE
    requires QuoteEnd(line, s + 1, s + 1) == (e, closed) && e > s + 1
    ensures NextSpan(line, o) == Some(Span(s, e, true, closed))
    ensures closed ==> e >= s + 2 && Words(line, o) == [Unescape(line[s + 1..e - 1])] + Words(line, e)
    ensures !closed ==> Words(line, o) == [Unescape(line[1..])] + Words(line, e)
  {
    hide SkipBlanks, QuoteEnd, Unescape;
    assert NextSpan(line, o) == Some(Span(s, e, true, closed));
    hide NextSpan;
  }

  /** A word that does not end in a backslash is read back, and reading goes on right after it. */
  lemma WordReadBack(line: Text, o: nat, s: nat, w: Text, post: Text)
    requires o <= |line| && SkipBlanks(line, o) == s < |line| && line[s..] == Quoted(w) + post && !EndsInBackslash(w)
    ensures var e := s + |Quoted(w)|;
            e <= |line| && Words(line, o) == [w] + Words(line, e) && line[e..] == post
  {
    hide Escape, Unescape, SkipBlanks;
    var prev, q := OpenQuote(line, s, w, post);
    assert QuoteEnd(line, prev, q) == (q + 1, true);
    hide QuoteEnd;
    QuotedSpan(line, o, s, q + 1, true);
    UnescapeEscape(w);
  }

  /** A word that ends in a backslash is not read back: its closing quote looks escaped. */
  lemma BackslashMisread(line: Text, o: nat, s: nat, w: Text, more: seq<Text>)
    requires EndsInBackslash(w)
    requires o <= |line| && SkipBlanks(line, o) == s < |line| && line[s..] == Quoted(w) + PrintRest(more)
    ensures Words(line, o) != [] && Words(line, o)[0] != w
  {
    hide Escape, Unescape, PrintRest, SkipBlanks, Words, Quoted, NextSpan, WordOf;
    var prev, q := OpenQuote(line, s, w, PrintRest(more));
    assert QuoteEnd(line, s + 1, s + 1) == QuoteEnd(line, q, q + 1);
    hide QuoteEnd;
    RestStarts(more);
    if more == [] {
      assert q + 1 == |line|;
      RunsToTheEnd(line, o, s, q);
    } else {
      var tail := PrintRest(more)[2..];
      assert PrintRest(more) == [SPACE] + ([QUOTE] + tail);
      EndsAtNextQuote(line, o, s, q, tail);
    }
  }

  /** A closing quote that looks escaped, at the end of the line: the word read ends in a quote. */
  lemma RunsToTheEnd(line: Text, o: nat, s: nat, q: nat)
    requires o <= |line| && SkipBlanks(line, o) == s < q && q + 1 == |line| && line[s] == QUOTE && line[q] == QUOTE
    requires QuoteEnd(line, s + 1, s + 1) == QuoteEnd(line, q, q + 1)
    ensures Words(line, o) != [] && !EndsInBackslash(Words(line, o)[0])
  {
    hide SkipBlanks, Unescape, Words;
    QuotedSpan(line, o, s, q + 1, false);
    assert line[1..][|line| - 2] == QUOTE;
    LastKept(line[1..]);
  }

  /** A closing quote that looks escaped, before another word: the word read ends in the blank between them. */
  lemma EndsAtNextQuote(line: Text, o: nat, s: nat, q: nat, tail: Text)
    requires o <= |line| && SkipBlanks(line, o) == s < q < |line| && line[s] == QUOTE
    requires line[q + 1..] == [SPACE] + ([QUOTE] + tail)
    requires QuoteEnd(line, s + 1, s + 1) == QuoteEnd(line, q, q + 1)
    ensures Words(line, o) != [] && !EndsInBackslash(Words(line, o)[0])
  {
    hide SkipBlanks, Unescape, Words;
    SuffixStep(line, q + 1, SPACE, [QUOTE] + tail);
    SuffixStep(line, q + 2, QUOTE, tail);
    assert QuoteEnd(line, q, q + 1) == QuoteEnd(line, q + 1, q + 2) == (q + 3, true);
    hide QuoteEnd;
    QuotedSpan(line, o, s, q + 3, true);
    var raw := line[s + 1..q + 2];
    assert raw[|raw| - 1] == SPACE;
    LastKept(raw);
  }

  lemma RestStarts(ws: seq<Text>)
    ensures ws == [] ==> PrintRest(ws) == []
    ensures ws != [] ==> |PrintRest(ws)| >= 2 && PrintRest(ws)[0] == SPACE && PrintRest(ws)[1] == QUOTE
  {
    hide Escape;
  }

  ghost predicate NoneEndsInBackslash(ws: seq<Text>) {
    forall i :: 0 <= i < |ws| ==> !EndsInBackslash(ws[i])
  }

  /** Reading a list whose first word starts at s. */
  lemma {:induction false} RoundTripFrom(line: Text, o: nat, s: nat, ws: seq<Text>)
    requires ws != [] && o <= |line| && SkipBlanks(line, o) == s < |line|
    requires line[s..] == Quoted(ws[0]) + PrintRest(ws[1..])
    ensures Words(line, o) == ws <==> NoneEndsInBackslash(ws)
    decreases |ws|, 1
  {
    hide PrintRest, Escape, NextSpan, EndsInBackslash, SkipBlanks, Words, Quoted;
    var w, more := ws[0], ws[1..];
    assert ws == [w] + more;
    if EndsInBackslash(w) {
      BackslashMisread(line, o, s, w, more);
    } else {
      WordReadBack(line, o, s, w, PrintRest(more));
      var e := s + |Quoted(w)|;
      RestReadBack(line, e, more);
      assert ([w] + Words(line, e))[1..] == Words(line, e);
      NoneTail(ws);
    }
  }

  lemma NoneTail(ws: seq<Text>)
    requires ws != [] && !EndsInBackslash(ws[0])
    ensures NoneEndsInBackslash(ws) <==> NoneEndsInBackslash(ws[1..])
  {
    hide EndsInBackslash;
    assert forall i :: 1 <= i < |ws| ==> ws[i] == ws[1..][i - 1];
  }

  lemma {:induction false} RestReadBack(line: Text, e: nat, more: seq<Text>)
    requires e <= |line| && line[e..] == PrintRest(more)
    ensures Words(line, e) == more <==> NoneEndsInBackslash(more)
    decreases |more|, 2
  {
    hide Escape, EndsInBackslash, Quoted;
    if more == [] {
      assert e == |line|;
    } else {
      var rest := Quoted(more[0]) + PrintRest(more[1..]);
      assert line[e..] == [SPACE] + rest && rest[0] == QUOTE by { QuotedStarts(more[0]); }
      SuffixStep(line, e, SPACE, rest);
      assert line[e + 1] == line[e + 1..][0];
      assert SkipBlanks(line, e) == e + 1;
      hide Words;
      RoundTripFrom(line, e, e + 1, more);
    }
  }

  lemma QuotedStarts(w: Text)
    ensures Quoted(w)[0] == QUOTE
  {
  }

  /** Quoting a list of words, escaping only the quotes, and parsing the line gives the list back,
      exactly when no word ends in a backslash. */
  lemma RoundTrip(ws: seq<Text>)
    ensures Words(Print(ws), 0) == ws <==> forall i :: 0 <= i < |ws| ==> !EndsInBackslash(ws[i])
  {
    if ws != [] {
      var line := Print(ws);
      QuotedStarts(ws[0]);
      assert line[0..] == line && SkipBlanks(line, 0) == 0;
      RoundTripFrom(line, 0, 0, ws);
    }
  }

  // ---------- Any line of words ----------

  /** A word as it may be typed: as it is, or in quotes. */
  datatype Item = Plain(w: Text) | InQuotes(w: Text)

  /** Typed plainly, a word is not empty, its bytes are 33 to 127 and the first one is not a quote (34); in quotes, it
      does not end in a backslash (92). */
  predicate Typable(item: Item) {
    match item
    case Plain(w) => w != [] && w[0] != 34 && forall i :: 0 <= i < |w| ==> 33 <= w[i] <= 127
    case InQuotes(w) => w == [] || w[|w| - 1] != 92
  }

  function Shown(item: Item): Text {
    match item
    case Plain(w) => w
    case InQuotes(w) => Quoted(w)
  }

  /** A gap is made of bytes below 33 and from 128 up. */
  predicate IsGap(gap: Text) {
    forall i :: 0 <= i < |gap| ==> gap[i] < 33 || gap[i] >= 128
  }

  /** The items with the gaps around them. */
  function Spread(items: seq<Item>, gaps: seq<Text>): Text
    requires |gaps| == |items| + 1
  {
    if items == [] then gaps[0] else gaps[0] + (Shown(items[0]) + Spread(items[1..], gaps[1..]))
  }

  function WordsOf(items: seq<Item>): seq<Text> {
    if items == [] then [] else [items[0].w] + WordsOf(items[1..])
  }

  /** A plain word is followed by a gap, unless it is the last. */
  ghost predicate Apart(items: seq<Item>, gaps: seq<Text>)
    requires |gaps| == |items| + 1
  {
    && (forall i :: 0 <= i < |items| ==> Typable(items[i]))
    && (forall i :: 0 <= i < |gaps| ==> IsGap(gaps[i]))
    && (forall i :: 0 <= i < |items| - 1 && items[i].Plain? ==> gaps[i + 1] != [])
  }

  lemma {:induction false} GapSkipped(line: Text, o: nat, gap: Text, rest: Text)
    requires o <= |line| && line[o..] == gap + rest && IsGap(gap)
    requires rest == [] || 33 <= rest[0] <= 127
    ensures o + |gap| <= |line| && line[o + |gap|..] == rest && SkipBlanks(line, o) == o + |gap|
    decreases |gap|
  {
    if gap == [] {
      assert line[o..] == rest;
      assert o < |line| ==> line[o] == line[o..][0];
    } else {
      var more := gap[1..] + rest;
      assert line[o..] == [gap[0]] + more;
      SuffixStep(line, o, gap[0], more);
      assert IsGap(gap[1..]) by {
        assert forall i :: 0 <= i < |gap| - 1 ==> gap[1..][i] == gap[i + 1];
      }
      GapSkipped(line, o + 1, gap[1..], rest);
    }
  }

  lemma {:induction false} PlainScanned(line: Text, o: nat, w: Text, rest: Text)
    requires o <= |line| && line[o..] == w + rest && forall i :: 0 <= i < |w| ==> 33 <= w[i] <= 127
    requires rest == [] || rest[0] < 33 || rest[0] >= 128
    ensures o + |w| <= |line| && line[o + |w|..] == rest && PlainEnd(line, o) == o + |w| && line[o..o + |w|] == w
    decreases |w|
  {
    assert line[o..o + |w|] == line[o..][..|w|];
    if w == [] {
      assert line[o..] == rest;
      assert o < |line| ==> line[o] == line[o..][0];
    } else {
      var more := w[1..] + rest;
      assert line[o..] == [w[0]] + more;
      SuffixStep(line, o, w[0], more);
      assert forall i :: 0 <= i < |w| - 1 ==> w[1..][i] == w[i + 1];
      PlainScanned(line, o + 1, w[1..], rest);
    }
  }

  /** What follows a plain word starts with a gap, or there is nothing. */
  lemma SpreadStarts(items: seq<Item>, gaps: seq<Text>)
    requires |gaps| == |items| + 1 && IsGap(gaps[0])
    requires gaps[0] != [] || items == []
    ensures var t := Spread(items, gaps); t == [] || t[0] < 33 || t[0] >= 128
  {
    hide Shown;
  }

  lemma ShownStarts(item: Item)
    requires Typable(item)
    ensures var t := Shown(item); t != [] && 33 <= t[0] <= 127
  {
    if item.InQuotes? {
      QuotedStarts(item.w);
    }
    hide Quoted;
  }

  lemma ItemReadBack(line: Text, o: nat, s: nat, item: Item, rest: Text)
    requires o <= |line| && SkipBlanks(line, o) == s <= |line| && line[s..] == Shown(item) + rest && Typable(item)
    requires item.Plain? ==> rest == [] || rest[0] < 33 || rest[0] >= 128
    ensures var e := s + |Shown(item)|;
            e <= |line| && Words(line, o) == [item.w] + Words(line, e) && line[e..] == rest
  {
    hide Words, SkipBlanks, Quoted;
    match item
    case Plain(w) =>
      PlainReadBack(line, o, s, w, rest);
    case InQuotes(w) =>
      ShownStarts(item);
      hide Shown;
      assert |line[s..]| > 0;
      WordReadBack(line, o, s, w, rest);
  }

  lemma PlainReadBack(line: Text, o: nat, s: nat, w: Text, rest: Text)
    requires o <= |line| && SkipBlanks(line, o) == s <= |line| && line[s..] == w + rest && Typable(Plain(w))
    requires rest == [] || rest[0] < 33 || rest[0] >= 128
    ensures var e := s + |w|;
            e <= |line| && Words(line, o) == [w] + Words(line, e) && line[e..] == rest
  {
    assert line[s] == line[s..][0];
    PlainScanned(line, s, w, rest);
    hide SkipBlanks, PlainEnd, QuoteEnd, Words, Unescape;
    assert NextSpan(line, o) == Some(Span(s, s + |w|, false, false));
    hide NextSpan;
    OneMore(line, o);
  }

  lemma AllBlank(line: Text, o: nat)
    requires o <= |line| && SkipBlanks(line, o) == |line|
    ensures Words(line, o) == []
  {
  }

  lemma NoItems(line: Text, o: nat, gaps: seq<Text>)
    requires |gaps| == 1 && Apart([], gaps) && o <= |line| && line[o..] == Spread([], gaps)
    ensures Words(line, o) == []
  {
    hide IsGap, SkipBlanks, Words;
    var gap := gaps[0];
    assert gap == gap + [];
    GapSkipped(line, o, gap, []);
    AllBlank(line, o);
  }

  /** The first item, what is known of it, and what is known of the rest. */
  lemma ApartFirst(items: seq<Item>, gaps: seq<Text>)
    requires |gaps| == |items| + 1 && items != [] && Apart(items, gaps)
    ensures Typable(items[0]) && IsGap(gaps[0]) && Apart(items[1..], gaps[1..])
    ensures var rest := Spread(items[1..], gaps[1..]);
            && Spread(items, gaps) == gaps[0] + (Shown(items[0]) + rest)
            && (items[0].Plain? ==> rest == [] || rest[0] < 33 || rest[0] >= 128)
  {
    hide Typable, IsGap, Shown;
    if items[0].Plain? {
      SpreadStarts(items[1..], gaps[1..]);
    }
  }

  /** One item after a gap is read, and reading goes on right behind it. */
  lemma GapAndItem(line: Text, o: nat, gap: Text, item: Item, rest: Text) returns (e: nat)
    requires o <= |line| && line[o..] == gap + (Shown(item) + rest) && Typable(item) && IsGap(gap)
    requires item.Plain? ==> rest == [] || rest[0] < 33 || rest[0] >= 128
    ensures e <= |line| && Words(line, o) == [item.w] + Words(line, e) && line[e..] == rest
  {
    hide Words, Shown, Typable, IsGap, SkipBlanks;
    e := o + |gap| + |Shown(item)|;
    ShownStarts(item);
    GapSkipped(line, o, gap, Shown(item) + rest);
    ItemReadBack(line, o, o + |gap|, item, rest);
  }

  lemma {:induction false} SpreadReadBack(line: Text, o: nat, items: seq<Item>, gaps: seq<Text>)
    requires |gaps| == |items| + 1 && Apart(items, gaps) && o <= |line| && line[o..] == Spread(items, gaps)
    ensures Words(line, o) == WordsOf(items)
    decreases |items|
  {
    hide Words, Shown, Typable, IsGap, Apart, Spread;
    if items == [] {
      NoItems(line, o, gaps);
    } else {
      ApartFirst(items, gaps);
      var e := GapAndItem(line, o, gaps[0], items[0], Spread(items[1..], gaps[1..]));
      SpreadReadBack(line, e, items[1..], gaps[1..]);
    }
  }

  /** Words typed plainly or in quotes, with any gaps around them, are read back. */
  lemma AnyLineReadBack(items: seq<Item>, gaps: seq<Text>)
    requires |gaps| == |items| + 1 && Apart(items, gaps)
    ensures Words(Spread(items, gaps), 0) == WordsOf(items)
  {
    var line := Spread(items, gaps);
    assert line[0..] == line;
    SpreadReadBack(line, 0, items, gaps);
  }

  // ---------- Offsets ----------

  ghost predicate Spells(line: Text, start: nat, end: nat, w: Text) {
    start < end <= |line| && Unescape(line[start + 1..end]) == w
  }

  /** The text at the offset spells the word: plainly, or between quotes. */
  ghost predicate PointsAt(line: Text, start: nat, w: Text) {
    start < |line| &&
    if line[start] == QUOTE then
      exists end :: Spells(line, start, end, w)
    else
      start + |w| <= |line| && line[start..start + |w|] == w
  }

  /** The recorded offsets increase, and each one points at its word exactly when it is not that of a quote
      that is neither closed nor at the start of the line. */
  lemma {:induction false} OffsetsPoint(line: Text, o: nat)
    requires o <= |line|
    ensures var sp, st, ws := Spans(line, o), Starts(line, o), Words(line, o);
            && |sp| == |st| == |ws|
            && (forall k :: 0 <= k < |sp| ==>
                  && st[k] == sp[k].start
                  && (PointsAt(line, st[k], ws[k]) <==> !(sp[k].quoted && !sp[k].closed && sp[k].start != 0)))
            && (forall k :: 0 <= k < |st| ==> o <= st[k] && (k > 0 ==> st[k - 1] < st[k]))
    decreases |line| - o
  {
    hide NextSpan, WordOf, PointsAt;
    if NextSpan(line, o).Some? {
      var s := NextSpan(line, o).value;
      OffsetsPoint(line, s.end);
      SpanPoints(line, o);
    }
  }

  lemma SpanPoints(line: Text, o: nat)
    requires o <= |line| && NextSpan(line, o).Some?
    ensures var s := NextSpan(line, o).value;
            PointsAt(line, s.start, WordOf(line, s)) <==> !(s.quoted && !s.closed && s.start != 0)
  {
    var s := NextSpan(line, o).value;
    hide Unescape;
    if s.quoted {
      if s.closed {
        assert Spells(line, s.start, s.end - 1, WordOf(line, s));
      } else if s.start == 0 {
        assert line[1..] == line[1..|line|];
        assert Spells(line, 0, |line|, WordOf(line, s));
      } else {
        UnclosedSpellsMore(line, s.start);
      }
    }
  }

  /** From an unclosed quote on, nothing spells what was recorded: that is the line from its second byte. */
  lemma UnclosedSpellsMore(line: Text, start: nat)
    requires 0 < start < |line| && line[start] == QUOTE
    ensures forall end :: !Spells(line, start, end, Unescape(line[1..]))
  {
    var left, right := line[1..start + 1], line[start + 1..];
    assert line[1..] == left + right;
    LongerByLeft(left, right);
    forall end: nat
      ensures !Spells(line, start, end, Unescape(line[1..]))
    {
      if start < end <= |line| {
        assert right == line[start + 1..end] + line[end..];
        PrefixShorter(line[start + 1..end], line[end..]);
      }
    }
  }

  lemma {:induction false} PrefixShorter(w: Text, more: Text)
    ensures |Unescape(w)| <= |Unescape(w + more)|
    decreases |w|
  {
    if |w| >= 2 {
      var n := if IsEscape(w, 0) then 2 else 1;
      assert (w + more)[n..] == w[n..] + more;
      PrefixShorter(w[n..], more);
    }
  }

  /** Text that ends in a quote adds at least that quote to what follows it. */
  lemma {:induction false} LongerByLeft(left: Text, right: Text)
    requires left != [] && left[|left| - 1] == QUOTE
    ensures |Unescape(left + right)| > |Unescape(right)|
    decreases |left|
  {
    var n := if IsEscape(left, 0) then 2 else 1;
    assert (left + right)[n..] == left[n..] + right;
    if |left| > n {
      LongerByLeft(left[n..], right);
    } else {
      assert left[n..] + right == right;
    }
  }

  /** The line `a "b`: the second word is recorded as ` "b`, at the offset of the quote, which spells `b`. */
  lemma UnclosedQuoteMisplaced() returns (line: Text)
    ensures line == [97, SPACE, QUOTE, 98]
    ensures Words(line, 0) == [[97], [SPACE, QUOTE, 98]] && Starts(line, 0) == [0, 2]
    ensures !PointsAt(line, 2, Words(line, 0)[1])
  {
    line := [97, SPACE, QUOTE, 98];
    assert PlainEnd(line, 0) == 1;
    assert NextSpan(line, 0) == Some(Span(0, 1, false, false));
    assert QuoteEnd(line, 3, 3) == (4, false);
    assert SkipBlanks(line, 1) == 2;
    assert NextSpan(line, 1) == Some(Span(2, 4, true, false));
    assert NextSpan(line, 4) == None;
    var w := line[1..];
    assert w == [SPACE, QUOTE, 98] && w[1..] == [QUOTE, 98] && w[1..][1..] == [98];
    assert Unescape(w[1..][1..]) == [98] && Unescape(w[1..]) == w[1..] && Unescape(w) == w;
    assert line[0..1] == [97];
    assert Words(line, 4) == [] && Starts(line, 4) == [];
    SpanPoints(line, 1);
  }
}

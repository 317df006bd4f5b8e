/** What splitting a line means: the maximal runs of characters that are not delimiters. */
module Words {
  /** The delimiters handed to strtok (include/shell.h:58). */
  predicate IsDelim(c: char) {
    c == ' ' || c == '\t' || c == '\n' || c == '\r' || c == '\U{0007}'
  }

  predicate IsWord(w: string) {
    w != "" && forall k :: 0 <= k < |w| ==> !IsDelim(w[k])
  }

  /** A run of the line: from the first position up to, not including, the second. */
  datatype Span = Span(lo: nat, hi: nat)

  /** A run with no delimiter inside and none missing at either end. */
  predicate MaximalRun(line: string, s: Span) {
    && s.lo < s.hi <= |line|
    && IsWord(line[s.lo..s.hi])
    && (s.lo > 0 ==> IsDelim(line[s.lo - 1]))
    && (s.hi < |line| ==> IsDelim(line[s.hi]))
  }

  /** Exactly the maximal runs from a position on, in order. */
  ghost predicate AreRuns(line: string, from: nat, spans: seq<Span>) {
    && (forall k :: 0 <= k < |spans| ==> MaximalRun(line, spans[k]) && from <= spans[k].lo)
    && (forall j, k :: 0 <= j < k < |spans| ==> spans[j].hi < spans[k].lo)
    && (forall s: Span :: MaximalRun(line, s) && from <= s.lo ==> s in spans)
  }

  function WordEnd(line: string, from: nat): (e: nat)
    requires from <= |line|
    ensures from <= e <= |line|
    ensures forall k :: from <= k < e ==> !IsDelim(line[k])
    ensures e < |line| ==> IsDelim(line[e])
    decreases |line| - from
  {
    if from == |line| || IsDelim(line[from]) then from else WordEnd(line, from + 1)
  }

  function WordStart(line: string, from: nat): (b: nat)
    requires from <= |line|
    ensures from <= b <= |line|
    ensures forall k :: from <= k < b ==> IsDelim(line[k])
    ensures b < |line| ==> !IsDelim(line[b])
    decreases |line| - from
  {
    if from == |line| || !IsDelim(line[from]) then from else WordStart(line, from + 1)
  }

  function Spans(line: string, from: nat): seq<Span>
    requires from <= |line|
    decreases |line| - from
  {
    var b := WordStart(line, from);
    if b == |line| then [] else [Span(b, WordEnd(line, b))] + Spans(line, WordEnd(line, b))
  }

  function Texts(line: string, spans: seq<Span>): (texts: seq<string>)
    requires forall k :: 0 <= k < |spans| ==> spans[k].lo <= spans[k].hi <= |line|
    ensures |texts| == |spans| && forall k :: 0 <= k < |spans| ==> texts[k] == line[spans[k].lo..spans[k].hi]
  {
    if spans == [] then [] else [line[spans[0].lo..spans[0].hi]] + Texts(line, spans[1..])
  }

  /** A position the scan may stand at between words. */
  predicate Between(line: string, from: nat) {
    from <= |line| && (0 < from < |line| ==> IsDelim(line[from]) || IsDelim(line[from - 1]))
  }

  lemma FirstRun(line: string, from: nat)
    requires Between(line, from) && WordStart(line, from) < |line|
    ensures var b := WordStart(line, from); var e := WordEnd(line, b);
            b < e && MaximalRun(line, Span(b, e)) && Between(line, e)
  {
  }

  lemma InRun(line: string, s: Span, k: nat)
    requires MaximalRun(line, s) && s.lo <= k < s.hi
    ensures !IsDelim(line[k])
  {
  }

  /** No run starts before the first one found, and none but it before its end. */
  lemma NoneBefore(line: string, from: nat, s: Span)
    requires from <= |line| && MaximalRun(line, s) && from <= s.lo
    ensures var b := WordStart(line, from);
            b < |line| && b <= s.lo && (s.lo <= WordEnd(line, b) ==> s == Span(b, WordEnd(line, b)))
  {
    var b := WordStart(line, from);
    InRun(line, s, s.lo);
    var e := WordEnd(line, b);
    if s.lo <= e < s.hi {
      InRun(line, s, e);
    }
  }

  lemma RunAfter(line: string, e: nat, s: Span)
    requires e <= |line| && MaximalRun(line, s) && e <= s.lo && (e < |line| ==> IsDelim(line[e]))
    ensures e < s.lo
  {
  }

  /** The first run, followed by the runs from its end on. */
  lemma ConsRuns(line: string, from: nat, rest: seq<Span>)
    requires Between(line, from) && WordStart(line, from) < |line|
    requires AreRuns(line, WordEnd(line, WordStart(line, from)), rest)
    ensures var b := WordStart(line, from);
            AreRuns(line, from, [Span(b, WordEnd(line, b))] + rest)
  {
    hide MaximalRun, WordEnd, WordStart;
    FirstRun(line, from);
    var b := WordStart(line, from);
    var e := WordEnd(line, b);
    var all := [Span(b, e)] + rest;
    forall s: Span | MaximalRun(line, s) && from <= s.lo
      ensures s in all
    {
      NoneBefore(line, from, s);
    }
    forall k | 0 < k < |all|
      ensures MaximalRun(line, all[k]) && from <= all[k].lo && e < all[k].lo
    {
      assert all[k] == rest[k - 1];
      RunAfter(line, e, rest[k - 1]);
    }
  }

  lemma {:induction false} SpansAreRuns(line: string, from: nat)
    requires Between(line, from)
    ensures AreRuns(line, from, Spans(line, from))
    decreases |line| - from
  {
    hide MaximalRun;
    if WordStart(line, from) == |line| {
      forall s: Span | MaximalRun(line, s) && from <= s.lo
        ensures false
      {
        NoneBefore(line, from, s);
      }
    } else {
      FirstRun(line, from);
      var e := WordEnd(line, WordStart(line, from));
      SpansAreRuns(line, e);
      ConsRuns(line, from, Spans(line, e));
    }
  }

  /** The runs of a line are one list: no other list of spans has the defining properties. */
  lemma {:induction false} RunsAreUnique(line: string, from: nat, s: seq<Span>, t: seq<Span>)
    requires AreRuns(line, from, s) && AreRuns(line, from, t)
    ensures s == t
    decreases |s|
  {
    hide *;
    NonEmptyTogether(line, from, s, t);
    NonEmptyTogether(line, from, t, s);
    if s != [] {
      SameFirst(line, from, s, t);
      TailRuns(line, from, s);
      TailRuns(line, from, t);
      RunsAreUnique(line, s[0].hi, s[1..], t[1..]);
      assert s == [s[0]] + s[1..] && t == [t[0]] + t[1..];
    }
  }

  lemma NonEmptyTogether(line: string, from: nat, s: seq<Span>, t: seq<Span>)
    requires AreRuns(line, from, s) && AreRuns(line, from, t)
    ensures t != [] ==> s != []
  {
    if t != [] {
      assert MaximalRun(line, t[0]);
    }
  }

  lemma SameFirst(line: string, from: nat, s: seq<Span>, t: seq<Span>)
    requires AreRuns(line, from, s) && AreRuns(line, from, t) && s != [] && t != []
    ensures s[0] == t[0]
  {
  }

  lemma TailRuns(line: string, from: nat, s: seq<Span>)
    requires AreRuns(line, from, s) && s != []
    ensures AreRuns(line, s[0].hi, s[1..])
  {
  }

  // ---------- Splitting and joining ----------

  lemma {:induction false} SpansFit(line: string, from: nat)
    requires from <= |line|
    ensures forall k :: 0 <= k < |Spans(line, from)| ==>
      Spans(line, from)[k].lo <= Spans(line, from)[k].hi <= |line|
    decreases |line| - from
  {
    var b := WordStart(line, from);
    if b < |line| {
      SpansFit(line, WordEnd(line, b));
    }
  }

  function TextsFrom(line: string, from: nat): seq<string>
    requires from <= |line|
  {
    SpansFit(line, from);
    Texts(line, Spans(line, from))
  }

  /** The words of a line. */
  function Split(line: string): seq<string> {
    TextsFrom(line, 0)
  }

  function Join(words: seq<string>): string {
    if words == [] then "" else if |words| == 1 then words[0] else words[0] + " " + Join(words[1..])
  }

  lemma {:induction false} EndShifts(p: string, line: string, i: nat)
    requires i <= |line|
    ensures WordEnd(p + line, |p| + i) == |p| + WordEnd(line, i)
    decreases |line| - i
  {
    if i < |line| {
      EndShifts(p, line, i + 1);
    }
  }

  lemma {:induction false} StartShifts(p: string, line: string, i: nat)
    requires i <= |line|
    ensures WordStart(p + line, |p| + i) == |p| + WordStart(line, i)
    decreases |line| - i
  {
    if i < |line| {
      StartShifts(p, line, i + 1);
    }
  }

  lemma TextsStep(line: string, from: nat)
    requires from <= |line|
    ensures var b := WordStart(line, from);
            TextsFrom(line, from) == if b == |line| then [] else
              [line[b..WordEnd(line, b)]] + TextsFrom(line, WordEnd(line, b))
  {
  }

  /** What comes before a line does not change its words. */
  lemma {:induction false} TextsShift(p: string, line: string, i: nat)
    requires i <= |line|
    ensures TextsFrom(p + line, |p| + i) == TextsFrom(line, i)
    decreases |line| - i
  {
    hide TextsFrom;
    StartShifts(p, line, i);
    TextsStep(p + line, |p| + i);
    TextsStep(line, i);
    var b := WordStart(line, i);
    if b < |line| {
      EndShifts(p, line, b);
      var e := WordEnd(line, b);
      assert b < e;
      TextsShift(p, line, e);
      assert (p + line)[|p| + b..|p| + e] == line[b..e];
    }
  }

  lemma {:induction false} EndOfWord(w: string, rest: string, i: nat)
    requires IsWord(w) && i <= |w| && (rest == "" || IsDelim(rest[0]))
    ensures WordEnd(w + rest, i) == |w|
    decreases |w| - i
  {
    if i < |w| {
      assert (w + rest)[i] == w[i];
      EndOfWord(w, rest, i + 1);
    }
  }

  /** A line that starts with a word and ends it has that word first. */
  lemma WordFirst(w: string, rest: string)
    requires IsWord(w) && (rest == "" || IsDelim(rest[0]))
    ensures Split(w + rest) == [w] + TextsFrom(w + rest, |w|)
  {
  }

  lemma SkipDelim(line: string, i: nat)
    requires i < |line| && IsDelim(line[i])
    ensures TextsFrom(line, i) == TextsFrom(line, i + 1)
  {
  }

  lemma FirstWord(w: string, rest: string)
    requires IsWord(w)
    ensures Split(w + " " + rest) == [w] + Split(rest)
  {
    hide TextsFrom, IsWord;
    assert w + " " + rest == w + (" " + rest) == (w + " ") + rest;
    WordFirst(w, " " + rest);
    SkipDelim(w + (" " + rest), |w|);
    TextsShift(w + " ", rest, 0);
  }

  lemma OnlyWord(w: string)
    requires IsWord(w)
    ensures Split(w) == [w]
  {
    hide TextsFrom, Spans;
    assert w + "" == w;
    WordFirst(w, "");
    TextsStep(w, |w|);
  }

  /** Joining words with single spaces and splitting gives the words back. */
  lemma {:induction false} SplitJoin(words: seq<string>)
    requires forall k :: 0 <= k < |words| ==> IsWord(words[k])
    ensures Split(Join(words)) == words
    decreases |words|
  {
    hide Split, IsWord;
    if words == [] {
      NoWords();
    } else if |words| == 1 {
      OnlyWord(words[0]);
    } else {
      SplitJoin(words[1..]);
      FirstWord(words[0], Join(words[1..]));
      assert words == [words[0]] + words[1..];
    }
  }

  lemma NoWords()
    ensures Split("") == []
  {
  }

  /** So splitting a line, joining the words and splitting again changes nothing. */
  lemma SplitJoinSplit(line: string)
    ensures Split(Join(Split(line))) == Split(line)
  {
    SpansAreRuns(line, 0);
    SplitJoin(Split(line));
  }

  // ---------- Which characters separate ----------

  /** A character between two letters separates them if and only if it is a bell, tab, newline, return or space. */
  lemma SeparatesIff(c: char)
    ensures Split("x" + [c] + "y") == ["x", "y"] <==> c as int in {7, 9, 10, 13, 32}
  {
    hide Split, TextsFrom;
    if IsDelim(c) {
      Separated("x", c, "y");
      OnlyWord("y");
    } else {
      OnlyWord("x" + [c] + "y");
    }
  }

  lemma Separated(w: string, c: char, rest: string)
    requires IsWord(w) && IsDelim(c)
    ensures Split(w + [c] + rest) == [w] + Split(rest)
  {
    hide TextsFrom, IsWord;
    assert w + [c] + rest == w + ([c] + rest) == (w + [c]) + rest;
    WordFirst(w, [c] + rest);
    SkipDelim(w + ([c] + rest), |w|);
    TextsShift(w + [c], rest, 0);
  }
}

/** include/shell.h: reading a line and cutting it into words, in growing buffers. */
module Tokenizer {
  import opened Blocks
  import opened Words

  const BUFF_SZ := 512

  /** `realloc`: a larger array that starts with the old contents. */
  method Grow<T>(a: array<T>, size: nat, fill: T) returns (b: array<T>)
    requires a.Length <= size
    ensures fresh(b) && b.Length == size && b[..a.Length] == a[..]
  {
    b := new T[size](_ => fill);
    for i := 0 to a.Length
      invariant b[..i] == a[..i]
    {
      b[i] := a[i];
    }
  }

  /**
   * include/shell.h:16-47. The growth test compares with BUFF_SZ, not with the size the buffer has reached, so every
   * character from the 512th on adds another 512: more than enough, never too little.
   */
  method ReadLine(input: string) returns (buff: array<char>, i: nat)
    ensures fresh(buff) && i < buff.Length
    ensures i <= |input| && '\n' !in input[..i] && (i == |input| || input[i] == '\n')
    ensures buff[..i] == input[..i] && buff[i] == '\0'
    ensures buff.Length == if i < BUFF_SZ then BUFF_SZ else BUFF_SZ * (i - BUFF_SZ + 2)
  {
    var bufsiz := BUFF_SZ;
    buff := new char[bufsiz];
    i := 0;
    while i < |input| && input[i] != '\n'
      invariant fresh(buff) && buff.Length == bufsiz && i < bufsiz
      invariant i <= |input| && '\n' !in input[..i]
      invariant buff[..i] == input[..i]
      invariant bufsiz == if i < BUFF_SZ then BUFF_SZ else BUFF_SZ * (i - BUFF_SZ + 2)
    {
      buff[i] := input[i];
      i := i + 1;
      if i >= BUFF_SZ {
        bufsiz := bufsiz + BUFF_SZ;
        buff := Grow(buff, bufsiz, '\0');
      }
    }
    buff[i] := '\0';
  }

  /** A C string of some length, from a position on. */
  predicate Text(line: seq<char>, from: nat, len: nat) {
    len < |line| && line[len] == '\0' && forall k :: from <= k < len ==> line[k] != '\0'
  }

  /**
   * One call of strtok (section 7.24.5.8 of ISO/IEC 9899:2011): skips delimiters, finds the end of the word, writes
   * a terminator over the delimiter there and remembers the position after it.
   */
  method StrTok(line: array<char>, len: nat, saved: nat) returns (token: Option<nat>, next: nat)
    requires saved <= len && Text(line[..], saved, len)
    modifies line
    ensures saved <= next <= len && Text(line[..], next, len)
    ensures var text := old(line[..len]);
            var b := WordStart(text, saved);
            if b == len then token == None && line[..] == old(line[..])
            else
              var e := WordEnd(text, b);
              && token == Some(b)
              && line[..] == old(line[..])[e := '\0']
              && next == if e < len then e + 1 else e
  {
    ghost var text := line[..len];
    var b := saved;
    while line[b] != '\0' && IsDelim(line[b])
      invariant saved <= b <= len
      invariant WordStart(text, saved) == WordStart(text, b)
      decreases len - b
    {
      b := b + 1;
    }
    if line[b] == '\0' {
      return None, b;
    }
    var e := b;
    while line[e] != '\0' && !IsDelim(line[e])
      invariant b <= e <= len
      invariant WordEnd(text, b) == WordEnd(text, e)
      decreases len - e
    {
      e := e + 1;
    }
    token := Some(b);
    next := if line[e] == '\0' then e else e + 1;
    line[e] := '\0';
  }

  // ---------- The line as strtok leaves it ----------

  /** The string C finds at a position: the characters up to the next terminator. */
  function CString(line: seq<char>, at: nat): string
    requires at <= |line|
    decreases |line| - at
  {
    if at == |line| || line[at] == '\0' then "" else [line[at]] + CString(line, at + 1)
  }

  lemma {:induction false} CStringIs(line: seq<char>, at: nat, end: nat)
    requires at <= end < |line| && line[end] == '\0' && forall k :: at <= k < end ==> line[k] != '\0'
    ensures CString(line, at) == line[at..end]
    decreases end - at
  {
    if at < end {
      CStringIs(line, at + 1, end);
    }
  }

  /** Terminators stand at the ends of the runs taken so far; nothing else has changed, and nothing further on. */
  predicate Cut(text: string, now: seq<char>, spans: seq<Span>, from: nat) {
    && |text| < |now| && now[|text|] == '\0' && from <= |text|
    && (forall k :: from <= k < |text| ==> now[k] == text[k])
    && (forall k :: 0 <= k < |text| ==> now[k] == text[k] || (IsDelim(text[k]) && now[k] == '\0'))
    && (forall j :: 0 <= j < |spans| ==> spans[j].hi <= |text| && now[spans[j].hi] == '\0')
  }

  lemma CutStep(text: string, now: seq<char>, spans: seq<Span>, from: nat)
    requires Cut(text, now, spans, from) && WordStart(text, from) < |text|
    ensures var b := WordStart(text, from);
            var e := WordEnd(text, b);
            Cut(text, now[e := '\0'], spans + [Span(b, e)], if e < |text| then e + 1 else e)
  {
  }

  lemma {:induction false} SameStart(text: string, now: string, from: nat)
    requires |text| == |now| && from <= |text| && forall k :: from <= k < |text| ==> now[k] == text[k]
    ensures WordStart(now, from) == WordStart(text, from)
    decreases |text| - from
  {
  }

  lemma {:induction false} SameEnd(text: string, now: string, from: nat)
    requires |text| == |now| && from <= |text| && forall k :: from <= k < |text| ==> now[k] == text[k]
    ensures WordEnd(now, from) == WordEnd(text, from)
    decreases |text| - from
  {
  }

  lemma SpansStep(text: string, from: nat)
    requires from <= |text|
    ensures var b := WordStart(text, from);
            if b == |text| then Spans(text, from) == []
            else
              var e := WordEnd(text, b);
              Spans(text, from) == [Span(b, e)] + Spans(text, if e < |text| then e + 1 else e)
  {
  }

  lemma ReadBack(text: string, now: seq<char>, spans: seq<Span>, from: nat, k: nat)
    requires Cut(text, now, spans, from) && k < |spans| && MaximalRun(text, spans[k]) && '\0' !in text
    ensures CString(now, spans[k].lo) == text[spans[k].lo..spans[k].hi]
  {
    var s := spans[k];
    forall i | s.lo <= i < s.hi
      ensures now[i] == text[i] && now[i] != '\0'
    {
      InRun(text, s, i);
      assert text[i] in text;
    }
    CStringIs(now, s.lo, s.hi);
    assert now[s.lo..s.hi] == text[s.lo..s.hi];
  }

  /** The spans taken are those of the line, up to the ones still to come after `from`. */
  predicate Taken(text: string, spans: seq<Span>, more: bool, from: nat)
  {
    from <= |text| && Spans(text, 0) == spans + (if more then Spans(text, from) else [])
  }

  lemma TakeOne(text: string, spans: seq<Span>, from: nat)
    requires Taken(text, spans, true, from)
    ensures var b := WordStart(text, from);
            if b == |text| then forall f :: from <= f <= |text| ==> Taken(text, spans, false, f)
            else
              var e := WordEnd(text, b);
              Taken(text, spans + [Span(b, e)], true, if e < |text| then e + 1 else e)
  {
    hide Spans;
    SpansStep(text, from);
    var b := WordStart(text, from);
    if b < |text| {
      var e := WordEnd(text, b);
      var rest := Spans(text, if e < |text| then e + 1 else e);
      assert spans + ([Span(b, e)] + rest) == (spans + [Span(b, e)]) + rest;
    }
  }

  /** One call of strtok on a line already cut. */
  method NextToken(line: array<char>, len: nat, ghost text: string, ghost spans: seq<Span>, saved: nat)
    returns (token: Option<nat>, next: nat, ghost more: seq<Span>)
    requires '\0' !in text && |text| == len && Cut(text, line[..], spans, saved) && Taken(text, spans, true, saved)
    modifies line
    ensures Cut(text, line[..], more, next) && Taken(text, more, token.Some?, next)
    ensures if token == None then more == spans else |more| == |spans| + 1 && spans == more[..|spans|]
    ensures token.Some? ==> token == Some(more[|spans|].lo)
    ensures line[len..] == old(line[len..])
  {
    hide Spans, Taken, WordEnd, WordStart;
    SameStart(text, line[..len], saved);
    ghost var b := WordStart(text, saved);
    SameEnd(text, line[..len], b);
    TakeOne(text, spans, saved);
    assert forall k :: 0 <= k < len ==> text[k] in text;
    more := spans;
    if b < len {
      CutStep(text, line[..], spans, saved);
      more := spans + [Span(b, WordEnd(text, b))];
    }
    ghost var was := line[..];
    token, next := StrTok(line, len, saved);
    if b < len {
      assert line[len..] == was[len..];
    }
  }

  /**
   * include/shell.h:49-75, with the capacity counted in elements. The pointers lead, in order, to the words of the
   * line, read back from the buffer that strtok has cut up.
   */
  method SplitLine(line: array<char>, len: nat) returns (tokens: array<Option<nat>>, n: nat)
    requires Text(line[..], 0, len)
    modifies line
    ensures fresh(tokens) && n < tokens.Length == 64 * (n / 64 + 1)
    ensures n == |Split(old(line[..len]))| && tokens[n] == None
    ensures forall k :: 0 <= k < n ==>
      tokens[k].Some? && tokens[k].value <= len
      && CString(line[..], tokens[k].value) == Split(old(line[..len]))[k]
    ensures line[len..] == old(line[len..])
    ensures forall k :: 0 <= k < len ==>
      line[k] == old(line[k]) || (IsDelim(old(line[k])) && line[k] == '\0')
  {
    hide *;
    Uncut(line[..], len);
    ghost var text, rest := line[..len], line[len..];
    assert line[..][..len] == text;
    var buffsize := 64;
    tokens := new Option<nat>[buffsize](_ => None);
    var i := 0;
    ghost var spans: seq<Span>;
    var token, saved;
    token, saved, spans := NextToken(line, len, text, [], 0);
    while token.Some?
      invariant fresh(tokens) && i < tokens.Length == buffsize == 64 * (i / 64 + 1)
      invariant Cut(text, line[..], spans, saved) && Taken(text, spans, token.Some?, saved)
      invariant |spans| == if token.Some? then i + 1 else i
      invariant token.Some? ==> token == Some(spans[i].lo)
      invariant forall k :: 0 <= k < i ==> tokens[k] == Some(spans[k].lo)
      invariant line[len..] == rest
      decreases |Spans(text, 0)| - i
    {
      TakenFits(text, spans, token.Some?, saved);
      tokens[i] := token;
      i := i + 1;
      if i >= buffsize {
        buffsize := buffsize + 64;
        tokens := Grow(tokens, buffsize, None);
      }
      token, saved, spans := NextToken(line, len, text, spans, saved);
    }
    tokens[i] := None;
    n := i;
    SplitRead(text, line[..], spans, saved);
  }

  lemma Uncut(line: seq<char>, len: nat)
    requires Text(line, 0, len)
    ensures len < |line| && '\0' !in line[..len]
    ensures Cut(line[..len], line, [], 0) && Taken(line[..len], [], true, 0)
  {
  }

  lemma TakenFits(text: string, spans: seq<Span>, more: bool, from: nat)
    requires Taken(text, spans, more, from)
    ensures |spans| <= |Spans(text, 0)|
  {
  }

  lemma SplitRead(text: string, now: seq<char>, spans: seq<Span>, from: nat)
    requires '\0' !in text && Cut(text, now, spans, from) && Taken(text, spans, false, from)
    ensures |Split(text)| == |spans|
    ensures forall k :: 0 <= k < |spans| ==> spans[k].lo <= |text| && CString(now, spans[k].lo) == Split(text)[k]
    ensures |text| < |now|
    ensures forall k :: 0 <= k < |text| ==> now[k] == text[k] || (IsDelim(text[k]) && now[k] == '\0')
  {
    hide Spans, CString, MaximalRun, WordEnd, WordStart;
    assert Spans(text, 0) == spans;
    SpansAreRuns(text, 0);
    SpansFit(text, 0);
    forall k | 0 <= k < |spans|
      ensures spans[k].lo <= |text| && CString(now, spans[k].lo) == Split(text)[k]
    {
      assert MaximalRun(text, spans[k]);
      ReadBack(text, now, spans, from, k);
    }
  }

  // ---------- The capacity as written ----------

  /**
   * The elements there is room for when `i` tokens have been stored, if growing passes `realloc` a number of elements
   * as if it were bytes (include/shell.h:63-68); `p` is the size of a pointer.
   */
  function RoomAsWritten(i: nat, p: nat): nat
    requires p > 0
  {
    if i < 64 then 64 else 64 * (i / 64 + 1) / p
  }

  /** Every store, the terminator's included, falls inside if and only if the line has fewer than 64 words. */
  lemma StoresFitIff(n: nat, p: nat)
    requires p >= 2
    ensures (forall i :: 0 <= i <= n ==> i < RoomAsWritten(i, p)) <==> n < 64
  {
    HalfAtMost(p);
    assert n >= 64 ==> 64 >= RoomAsWritten(64, p);
  }

  lemma HalfAtMost(p: nat)
    requires p >= 2
    ensures 2 * 64 / p <= 64
  {
  }
}

/** `parseWhisperResponse` (src/index.ts): the engine's printed transcript
    becomes a list of timed segments. Each line is matched against the
    unanchored pattern
      \[(\d{2}:\d{2}:\d{2}\.\d{3})\s-->\s(\d{2}:\d{2}:\d{2}\.\d{3})\]\s(.+)
    after its white-space runs are collapsed; lines that do not match are
    dropped. */
module Transcript {
  import opened Results
  import opened Text
  import opened Types
  import opened Seqs

  /** `\d{2}:\d{2}:\d{2}\.\d{3}` at the start of `t`. */
  predicate TimestampHere(t: string)
  {
    && |t| >= 12
    && IsDigit(t[0]) && IsDigit(t[1]) && t[2] == ':'
    && IsDigit(t[3]) && IsDigit(t[4]) && t[5] == ':'
    && IsDigit(t[6]) && IsDigit(t[7]) && t[8] == '.'
    && IsDigit(t[9]) && IsDigit(t[10]) && IsDigit(t[11])
  }

  /** A time marker of exactly the shape `HH:MM:SS.mmm`. */
  predicate IsTimestamp(t: string)
  {
    |t| == 12 && TimestampHere(t)
  }

  /** `\[(..)\s-->\s(..)\]\s` at the start of `t`: the 32 characters before
      the text group. */
  predicate HeaderHere(t: string)
  {
    && |t| >= 32
    && t[0] == '[' && TimestampHere(t[1..13]) && IsSpace(t[13])
    && t[14] == '-' && t[15] == '-' && t[16] == '>' && IsSpace(t[17])
    && TimestampHere(t[18..30]) && t[30] == ']' && IsSpace(t[31])
  }

  /** How far a greedy `.*` reaches from the start of `t`: up to the first
      line terminator. */
  function DotRun(t: string): (n: nat)
    ensures n <= |t|
    ensures forall k :: 0 <= k < n ==> !IsLineTerminator(t[k])
    ensures n < |t| ==> IsLineTerminator(t[n])
  {
    if t == [] || IsLineTerminator(t[0]) then 0
    else
      var n := 1 + DotRun(t[1..]);
      assert forall k :: 1 <= k < n ==> t[k] == t[1..][k - 1];
      n
  }

  /** The three capture groups. */
  datatype Groups = Groups(start: string, end: string, text: string)

  /** The pattern matched at the start of `t`: `(.+)` takes the longest
      non-empty run free of line terminators, and the match fails when that
      run would be empty. */
  function MatchHere(t: string): Option<Groups>
  {
    if HeaderHere(t) && |t| > 32 && !IsLineTerminator(t[32]) then
      Some(Groups(t[1..13], t[18..30], t[32..32 + DotRun(t[32..])]))
    else None
  }

  /** `s.match(regex)`: the groups of the leftmost match, if any. */
  function Exec(s: string): Option<Groups>
  {
    match Leftmost(s, 0, MatchHere)
    case Some(i) => MatchHere(s[i..])
    case None => None
  }

  /** The callback of the `map`: collapse, match, and keep the groups. */
  function ParseLine(line: string): Option<Segment>
  {
    match Exec(Collapse(line))
    case Some(g) => Some(Segment(g.start, g.end, g.text))
    case None => None
  }

  /** The lines the transcript is cut into. */
  function Lines(response: string): seq<string>
  {
    Split(Trim(response), '\n')
  }

  /** `parseWhisperResponse(response)`. */
  function ParseWhisperResponse(response: string): seq<Segment>
  {
    FilterMap(Lines(response), ParseLine)
  }

  /** What every produced segment looks like. */
  ghost predicate WellFormed(seg: Segment)
  {
    && IsTimestamp(seg.start)
    && IsTimestamp(seg.end)
    && seg.text != []
    && !IsSpace(seg.text[0])
    && '\n' !in seg.text
    && '\t' !in seg.text
    && Collapsed(seg.text)
  }

  /** Output that is empty or only white space gives no segments. */
  lemma BlankResponse(response: string)
    requires AllSpace(response)
    ensures ParseWhisperResponse(response) == []
  {
    assert Trim(response) == [];
    assert Lines(response) == [[]];
    assert Leftmost([], 0, MatchHere) == None;
    assert ParseLine([]) == None;
  }

  /** Segments keep the order of the lines they come from, each from a
      distinct line, so there are never more segments than lines; every line
      that yields no segment is one that does not match. */
  lemma SegmentsFollowLines(response: string)
    ensures var lines, segs, idx := Lines(response), ParseWhisperResponse(response), KeptIndices(Lines(response), ParseLine);
      && |segs| <= |lines|
      && |idx| == |segs|
      && (forall k :: 0 <= k < |idx| ==> idx[k] < |lines| && ParseLine(lines[idx[k]]) == Some(segs[k]))
      && (forall k, m :: 0 <= k < m < |idx| ==> idx[k] < idx[m])
      && (forall j :: 0 <= j < |lines| && j !in idx ==> ParseLine(lines[j]) == None)
  {
    FilterMapKeptIndices(Lines(response), ParseLine);
  }

  /** A line that does not match leaves no entry, neither an error nor a
      placeholder: the other lines give the same segments without it. */
  lemma UnmatchedLineDropped(before: seq<string>, line: string, after: seq<string>)
    requires ParseLine(line) == None
    ensures FilterMap(before + [line] + after, ParseLine) == FilterMap(before + after, ParseLine)
  {
    DroppedElement(before, line, after, ParseLine);
  }

  lemma NoLineTerminatorWhenCollapsed(t: string)
    requires Collapsed(t)
    ensures DotRun(t) == |t|
  {
  }

  /** An anchored match in collapsed text yields a well-formed segment whose
      text is the whole rest of the line. */
  lemma MatchHereWellFormed(t: string)
    requires Collapsed(t) && MatchHere(t).Some?
    ensures var g := MatchHere(t).value;
      g.text == t[32..] && WellFormed(Segment(g.start, g.end, g.text))
  {
    CollapsedSuffix(t, 32);
    var text := t[32..];
    NoLineTerminatorWhenCollapsed(text);
    assert text[0] == t[32];
    assert !(IsSpace(t[31]) && IsSpace(t[32]));
    forall k | 0 <= k < |text| ensures text[k] != '\n' && text[k] != '\t' {
      assert IsSpace(text[k]) ==> text[k] == ' ';
    }
  }

  /** Every segment a line yields is well formed. */
  lemma ParseLineWellFormed(line: string)
    requires ParseLine(line).Some?
    ensures WellFormed(ParseLine(line).value)
  {
    var c := Collapse(line);
    CollapseIsCollapsed(line);
    var i := Leftmost(c, 0, MatchHere).value;
    CollapsedSuffix(c, i);
    MatchHereWellFormed(c[i..]);
  }

  /** Every segment of a response is well formed: time markers of exactly
      the shape `HH:MM:SS.mmm`, and a text that is non-empty, starts with a
      character that is not white space, contains no newline or tab and no
      two adjacent white-space characters. */
  lemma SegmentsWellFormed(response: string)
    ensures forall k :: 0 <= k < |ParseWhisperResponse(response)| ==> WellFormed(ParseWhisperResponse(response)[k])
  {
    var lines, segs, idx := Lines(response), ParseWhisperResponse(response), KeptIndices(Lines(response), ParseLine);
    SegmentsFollowLines(response);
    forall k | 0 <= k < |segs| ensures WellFormed(segs[k]) {
      ParseLineWellFormed(lines[idx[k]]);
    }
  }

  lemma TimestampNoSpace(a: string)
    requires IsTimestamp(a)
    ensures NoSpace(a) && NoSpace("[" + a) && NoSpace(a + "]")
  {
    var x, y := "[" + a, a + "]";
    forall i | 0 <= i < |x| ensures !IsSpace(x[i]) {
      if i > 0 { assert x[i] == a[i - 1]; }
    }
    forall i | 0 <= i < |y| ensures !IsSpace(y[i]) {
      if i < |a| { assert y[i] == a[i]; }
    }
  }

  /** The leftmost match lies past a prefix that has no `[`. */
  lemma ExecPastPrefix(q: string, c: string)
    requires '[' !in q && MatchHere(c).Some?
    ensures Exec(q + c) == MatchHere(c)
  {
    var s := q + c;
    assert s[|q|..] == c;
    forall j | 0 <= j < |q| ensures MatchHere(s[j..]).None? {
      assert s[j..][0] == q[j];
    }
    assert Leftmost(s, 0, MatchHere) == Some(|q|);
  }

  /** A transcript line `[a --> b] t` with the white-space runs `w1`, `w2`
      and `w3` around `-->` and after `]`. */
  function TimedLine(a: string, w1: string, w2: string, b: string, w3: string, t: string): string
  {
    "[" + (a + (w1 + ("-->" + (w2 + (b + ("]" + (w3 + t)))))))
  }

  /** The same line with every white-space run already a single space. */
  function RegularLine(a: string, b: string, t: string): string
  {
    "[" + (a + (" " + ("-->" + (" " + (b + ("]" + (" " + t)))))))
  }

  lemma PunctuationNoSpace()
    ensures NoSpace("[") && NoSpace("-->") && NoSpace("]")
  {
  }

  /** Text without white space, then a white-space run, then the rest. */
  lemma CollapseWordThenRun(x: string, w: string, y: string)
    requires NoSpace(x) && w != [] && AllSpace(w)
    requires y == [] || !IsSpace(y[0])
    ensures Collapse(x + (w + y)) == x + (" " + Collapse(y))
  {
    CollapseNoSpacePrefix(x, w + y);
    CollapseSpaceRun(w, y);
  }

  lemma CollapseLine(a: string, w1: string, w2: string, b: string, w3: string, t: string)
    requires IsTimestamp(a) && IsTimestamp(b)
    requires w1 != [] && AllSpace(w1) && w2 != [] && AllSpace(w2) && w3 != [] && AllSpace(w3)
    requires t != [] && !IsSpace(t[0])
    ensures Collapse(TimedLine(a, w1, w2, b, w3, t)) == RegularLine(a, b, Collapse(t))
  {
    TimestampNoSpace(a);
    TimestampNoSpace(b);
    PunctuationNoSpace();
    var q3 := "]" + (w3 + t);
    CollapseWordThenRun("]", w3, t);
    var p3 := b + q3;
    CollapseNoSpacePrefix(b, q3);
    var q2 := "-->" + (w2 + p3);
    CollapseWordThenRun("-->", w2, p3);
    var p1 := a + (w1 + q2);
    CollapseWordThenRun(a, w1, q2);
    CollapseNoSpacePrefix("[", p1);
  }

  /** Where the pieces of a regular line sit. */
  lemma RegularLineParts(a: string, b: string, t: string)
    requires |a| == 12 && |b| == 12
    ensures var c := RegularLine(a, b, t);
      && |c| == 32 + |t| && c[0] == '[' && c[1..13] == a
      && c[13] == ' ' && c[14] == '-' && c[15] == '-' && c[16] == '>' && c[17] == ' '
      && c[18..30] == b && c[30] == ']' && c[31] == ' ' && c[32..] == t
  {
    var r7 := " " + t;
    var r6 := "]" + r7;
    var r5 := b + r6;
    var r4 := " " + r5;
    var r3 := "-->" + r4;
    var r2 := " " + r3;
    var r1 := a + r2;
    var c := "[" + r1;
    assert c == RegularLine(a, b, t);
    forall k | 0 <= k < 12 ensures c[1 + k] == a[k] {
      assert c[1 + k] == r1[k];
    }
    forall k | 0 <= k < 12 ensures c[18 + k] == b[k] {
      assert c[18 + k] == r1[17 + k] == r2[5 + k] == r3[4 + k] == r4[1 + k] == r5[k];
    }
    forall k | 0 <= k < |t| ensures c[32 + k] == t[k] {
      assert c[32 + k] == r1[31 + k] == r2[19 + k] == r3[18 + k] == r4[15 + k] == r5[14 + k];
      assert r5[14 + k] == r6[2 + k] == r7[1 + k];
    }
    assert c[1..13] == a;
    assert c[18..30] == b;
    assert c[32..] == t;
  }

  lemma MatchLine(a: string, b: string, ct: string)
    requires IsTimestamp(a) && IsTimestamp(b)
    requires ct != [] && !IsSpace(ct[0]) && Collapsed(ct)
    ensures MatchHere(RegularLine(a, b, ct)) == Some(Groups(a, b, ct))
  {
    var c := RegularLine(a, b, ct);
    RegularLineParts(a, b, ct);
    assert c[32] == ct[0];
    NoLineTerminatorWhenCollapsed(ct);
    assert HeaderHere(c);
    assert c[32..32 + DotRun(c[32..])] == ct;
  }

  /** The match is unanchored and spacing is irregular-tolerant: a prefix
      without `[`, and any non-empty white-space runs around `-->` and after
      `]`, still yield the segment; the prefix is discarded. */
  lemma UnanchoredLine(p: string, a: string, w1: string, w2: string, b: string, w3: string, t: string)
    requires '[' !in p
    requires IsTimestamp(a) && IsTimestamp(b)
    requires w1 != [] && AllSpace(w1) && w2 != [] && AllSpace(w2) && w3 != [] && AllSpace(w3)
    requires t != [] && !IsSpace(t[0])
    ensures ParseLine(p + TimedLine(a, w1, w2, b, w3, t)) == Some(Segment(a, b, Collapse(t)))
  {
    var line := TimedLine(a, w1, w2, b, w3, t);
    CollapseLine(a, w1, w2, b, w3, t);
    CollapseIsCollapsed(t);
    MatchLine(a, b, Collapse(t));
    CollapseAppend(p, line);
    CollapseAvoids(p, '[');
    ExecPastPrefix(Collapse(p), Collapse(line));
  }
}

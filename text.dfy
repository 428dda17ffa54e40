/** The JavaScript string primitives the core relies on: `trim()`,
    `split(c)`, `join(sep)`, `replaceAll(/\s+/g, ' ')` and lower-casing,
    over strings of Unicode scalar values. */
module Text {

  /** A code point matched by the regular-expression class `\s` and removed by
      `trim()`: the ECMAScript WhiteSpace and LineTerminator code points. */
  predicate IsSpace(c: char)
  {
    || c == '\t' || c == '\n' || c == '\U{000B}' || c == '\U{000C}' || c == '\r'
    || c == ' ' || c == '\U{00A0}' || c == '\U{1680}'
    || ('\U{2000}' <= c <= '\U{200A}')
    || c == '\U{2028}' || c == '\U{2029}' || c == '\U{202F}' || c == '\U{205F}'
    || c == '\U{3000}' || c == '\U{FEFF}'
  }

  /** A code point that the regular-expression `.` does not match. */
  predicate IsLineTerminator(c: char)
  {
    c == '\n' || c == '\r' || c == '\U{2028}' || c == '\U{2029}'
  }

  /** The class `\d`: ASCII digits only. */
  predicate IsDigit(c: char)
  {
    '0' <= c <= '9'
  }

  predicate AllSpace(s: string)
  {
    forall i :: 0 <= i < |s| ==> IsSpace(s[i])
  }

  lemma AllSpaceTail(s: string)
    requires s != [] && AllSpace(s)
    ensures AllSpace(s[1..])
  {
    forall i | 0 <= i < |s[1..]| ensures IsSpace(s[1..][i]) {
      assert s[1..][i] == s[i + 1];
    }
  }

  predicate NoSpace(s: string)
  {
    forall i :: 0 <= i < |s| ==> !IsSpace(s[i])
  }

  /** The shape `replaceAll(/\s+/g, ' ')` leaves: the only white space is the
      plain space, and no two white-space characters are adjacent. */
  ghost predicate Collapsed(s: string)
  {
    && (forall i :: 0 <= i < |s| && IsSpace(s[i]) ==> s[i] == ' ')
    && (forall i :: 0 <= i < |s| - 1 ==> !(IsSpace(s[i]) && IsSpace(s[i + 1])))
  }

  /** Length of the white-space run at the start of `s`. */
  function LeadingSpace(s: string): (n: nat)
    ensures n <= |s|
    ensures forall i :: 0 <= i < n ==> IsSpace(s[i])
    ensures n < |s| ==> !IsSpace(s[n])
    decreases |s|
  {
    if s == [] || !IsSpace(s[0]) then 0
    else
      var n := 1 + LeadingSpace(s[1..]);
      assert forall i :: 1 <= i < n ==> s[i] == s[1..][i - 1];
      n
  }

  /** Where the white-space run at the end of `s` begins. */
  function ContentEnd(s: string): (n: nat)
    ensures n <= |s|
    ensures forall i :: n <= i < |s| ==> IsSpace(s[i])
    ensures n > 0 ==> !IsSpace(s[n - 1])
    decreases |s|
  {
    if s == [] || !IsSpace(s[|s| - 1]) then |s|
    else
      var n := ContentEnd(s[..|s| - 1]);
      assert forall i :: n <= i < |s| - 1 ==> s[i] == s[..|s| - 1][i];
      n
  }

  /** Leading white space removed. */
  function TrimStart(s: string): (r: string)
    ensures |r| <= |s| && r == s[|s| - |r|..]
    ensures forall i :: 0 <= i < |s| - |r| ==> IsSpace(s[i])
    ensures r == [] || !IsSpace(r[0])
  {
    s[LeadingSpace(s)..]
  }

  /** Trailing white space removed. */
  function TrimEnd(s: string): (r: string)
    ensures |r| <= |s| && r == s[..|r|]
    ensures forall i :: |r| <= i < |s| ==> IsSpace(s[i])
    ensures r == [] || !IsSpace(r[|r| - 1])
  {
    s[..ContentEnd(s)]
  }

  /** `s.trim()`: `s` is the result surrounded by white space, and the result
      neither starts nor ends with white space. */
  function Trim(s: string): (r: string)
    ensures |r| <= |s|
    ensures r == [] || (!IsSpace(r[0]) && !IsSpace(r[|r| - 1]))
    ensures r == [] <==> AllSpace(s)
  {
    TrimmedNonEmpty(s);
    TrimmedEmpty(s);
    TrimEnd(TrimStart(s))
  }

  lemma TrimmedNonEmpty(s: string)
    ensures TrimEnd(TrimStart(s)) != [] ==> !IsSpace(TrimEnd(TrimStart(s))[0]) && !AllSpace(s)
  {
    var t := TrimStart(s);
    var r := TrimEnd(t);
    if r != [] {
      assert r[0] == t[0] && t[0] == s[|s| - |t|];
    }
  }

  lemma TrimmedEmpty(s: string)
    ensures TrimEnd(TrimStart(s)) == [] ==> AllSpace(s)
  {
    var t := TrimStart(s);
    if TrimEnd(t) == [] {
      assert t == [];
    }
  }

  /** Trimming introduces no character: every character of `s.trim()` is one
      of `s`'s, at the same relative position. */
  lemma TrimInfix(s: string)
    ensures var k := |s| - |TrimStart(s)|;
      k + |Trim(s)| <= |s| && Trim(s) == s[k..k + |Trim(s)|]
  {
    TrimUnfold(s);
    var t := TrimStart(s);
    SliceOfSuffix(s, |s| - |t|, |TrimEnd(t)|);
  }

  lemma TrimUnfold(s: string)
    ensures Trim(s) == TrimEnd(TrimStart(s))
  {
  }

  lemma SliceOfSuffix(s: string, k: nat, n: nat)
    requires k + n <= |s|
    ensures s[k..][..n] == s[k..k + n]
  {
  }

  lemma InnerSliceOfSuffix(s: string, k: nat, n: nat, m: nat)
    requires k + n + m <= |s|
    ensures s[k..][n..n + m] == s[k + n..k + n + m]
  {
  }

  lemma TrimAvoids(s: string, c: char)
    requires c !in s
    ensures c !in Trim(s)
  {
    TrimInfix(s);
    var k := |s| - |TrimStart(s)|;
    NotInSlice(s, c, k, k + |Trim(s)|);
  }

  lemma NotInSlice(s: string, c: char, a: nat, b: nat)
    requires c !in s && a <= b <= |s|
    ensures c !in s[a..b]
  {
    forall i | 0 <= i < b - a ensures s[a..b][i] != c {
      assert s[a..b][i] == s[a + i];
    }
  }

  /** `s.split(sep)` for a one-character separator: the pieces between the
      separators, empty pieces included. */
  function Split(s: string, sep: char): (r: seq<string>)
    ensures |r| >= 1
    ensures forall k :: 0 <= k < |r| ==> sep !in r[k]
    decreases |s|
  {
    if s == [] then [[]]
    else
      var rest := Split(s[1..], sep);
      if s[0] == sep then [[]] + rest
      else [[s[0]] + rest[0]] + rest[1..]
  }

  /** `parts.join(sep)`. */
  function Join(parts: seq<string>, sep: string): string
  {
    if parts == [] then []
    else if |parts| == 1 then parts[0]
    else parts[0] + sep + Join(parts[1..], sep)
  }

  /** Joining the pieces back together with the separator gives the input. */
  lemma {:induction false} JoinSplit(s: string, sep: char)
    ensures Join(Split(s, sep), [sep]) == s
    decreases |s|
  {
    if s != [] {
      var rest := Split(s[1..], sep);
      JoinSplit(s[1..], sep);
      if s[0] == sep {
        assert Split(s, sep) == [[]] + rest;
      } else {
        var r := Split(s, sep);
        assert r == [[s[0]] + rest[0]] + rest[1..];
        if |rest| == 1 {
          assert Join(r, [sep]) == [s[0]] + rest[0];
        } else {
          assert r[1..] == rest[1..];
          assert Join(rest, [sep]) == rest[0] + [sep] + Join(rest[1..], [sep]);
          assert Join(r, [sep]) == [s[0]] + rest[0] + [sep] + Join(rest[1..], [sep]);
        }
      }
    }
  }

  /** Splitting pieces that contain no separator, once joined, gives the
      pieces back. */
  lemma {:induction false} SplitJoin(parts: seq<string>, sep: char)
    requires |parts| >= 1
    requires forall k :: 0 <= k < |parts| ==> sep !in parts[k]
    ensures Split(Join(parts, [sep]), sep) == parts
    decreases |parts|, |parts[0]|
  {
    var p := parts[0];
    if p == [] {
      if |parts| > 1 {
        var j := Join(parts[1..], [sep]);
        assert Join(parts, [sep]) == [sep] + j;
        SplitJoin(parts[1..], sep);
        assert ([sep] + j)[1..] == j;
      }
    } else {
      assert p == [p[0]] + p[1..];
      var tail := [p[1..]] + parts[1..];
      assert tail[1..] == parts[1..];
      assert sep !in p[1..] by {
        forall i | 0 <= i < |p[1..]| ensures p[1..][i] != sep {
          assert p[1..][i] == p[i + 1];
        }
      }
      SplitJoin(tail, sep);
      var s := Join(parts, [sep]);
      var t := Join(tail, [sep]);
      if |parts| == 1 {
        assert s == p && t == p[1..];
      } else {
        assert s == p + [sep] + Join(parts[1..], [sep]);
        assert t == p[1..] + [sep] + Join(parts[1..], [sep]);
      }
      assert s == [p[0]] + t;
      assert s[1..] == t;
      assert p[0] == parts[0][0];
      assert s[0] != sep;
      assert Split(s, sep) == [[s[0]] + Split(t, sep)[0]] + Split(t, sep)[1..];
    }
  }

  /** The pieces of a string that is only white space are only white space. */
  lemma {:induction false} SplitAllSpace(s: string, sep: char)
    requires AllSpace(s)
    ensures forall k :: 0 <= k < |Split(s, sep)| ==> AllSpace(Split(s, sep)[k])
    decreases |s|
  {
    if s != [] {
      AllSpaceTail(s);
      SplitAllSpace(s[1..], sep);
      var rest := Split(s[1..], sep);
      if s[0] != sep {
        var p := [s[0]] + rest[0];
        forall i | 0 <= i < |p| ensures IsSpace(p[i]) {
          if i > 0 { assert p[i] == rest[0][i - 1]; }
        }
      }
    }
  }

  /** A trailing separator adds exactly one empty piece. */
  lemma {:induction false} SplitTrailingSeparator(s: string, sep: char)
    ensures Split(s + [sep], sep) == Split(s, sep) + [[]]
    decreases |s|
  {
    if s == [] {
      assert Split([sep], sep) == [[]] + Split([], sep);
    } else {
      assert (s + [sep])[1..] == s[1..] + [sep];
      SplitTrailingSeparator(s[1..], sep);
    }
  }

  /** `s.replaceAll(/\s+/g, ' ')`: every maximal run of white space becomes a
      single space (emitted at the run's last character); every other
      character is kept. */
  function Collapse(s: string): (r: string)
    ensures r == [] <==> s == []
    ensures s != [] && !IsSpace(s[0]) ==> r[0] == s[0]
    ensures s != [] && IsSpace(s[0]) ==> r[0] == ' '
    decreases |s|
  {
    if s == [] then []
    else if IsSpace(s[0]) && |s| > 1 && IsSpace(s[1]) then Collapse(s[1..])
    else [if IsSpace(s[0]) then ' ' else s[0]] + Collapse(s[1..])
  }

  /** After collapsing, the only white space is the plain space and no two
      white-space characters are adjacent. */
  lemma {:induction false} CollapseIsCollapsed(s: string)
    ensures Collapsed(Collapse(s))
    decreases |s|
  {
    if s != [] {
      CollapseIsCollapsed(s[1..]);
      var c := Collapse(s[1..]);
      if !(IsSpace(s[0]) && |s| > 1 && IsSpace(s[1])) {
        var r := Collapse(s);
        assert r == [r[0]] + c;
        assert IsSpace(r[0]) ==> c == [] || !IsSpace(c[0]);
        forall i | 0 <= i < |r| && IsSpace(r[i]) ensures r[i] == ' ' {
          if i > 0 { assert r[i] == c[i - 1]; }
        }
        forall i, j | 0 <= i < j < |r| && j == i + 1 ensures !(IsSpace(r[i]) && IsSpace(r[j])) {
          if i > 0 { assert r[i] == c[i - 1] && r[j] == c[j - 1]; }
        }
      }
    }
  }

  /** Collapsing introduces no character other than the plain space. */
  lemma {:induction false} CollapseAvoids(s: string, c: char)
    requires c != ' ' && c !in s
    ensures c !in Collapse(s)
    decreases |s|
  {
    if s != [] {
      assert c !in s[1..];
      CollapseAvoids(s[1..], c);
    }
  }

  /** The characters that are not white space, in order. */
  function NonSpaceChars(s: string): string
  {
    if s == [] then []
    else if IsSpace(s[0]) then NonSpaceChars(s[1..])
    else [s[0]] + NonSpaceChars(s[1..])
  }

  /** Collapsing white space keeps every other character, in order. */
  lemma {:induction false} CollapseKeepsNonSpace(s: string)
    ensures NonSpaceChars(Collapse(s)) == NonSpaceChars(s)
    decreases |s|
  {
    if s != [] {
      CollapseKeepsNonSpace(s[1..]);
      var c := Collapse(s[1..]);
      if !(IsSpace(s[0]) && |s| > 1 && IsSpace(s[1])) {
        var r := Collapse(s);
        assert r[1..] == c;
      }
    }
  }

  lemma CollapsedSuffix(s: string, i: nat)
    requires Collapsed(s) && i <= |s|
    ensures Collapsed(s[i..])
  {
    var t := s[i..];
    forall k | 0 <= k < |t| ensures t[k] == s[i + k] { }
  }

  /** A string already in collapsed form is left unchanged; in particular
      collapsing twice is the same as collapsing once. */
  lemma {:induction false} CollapseFixesCollapsed(s: string)
    requires Collapsed(s)
    ensures Collapse(s) == s
    decreases |s|
  {
    if s != [] {
      assert Collapsed(s[1..]) by {
        forall i, j | 0 <= i < j < |s[1..]| && j == i + 1
          ensures !(IsSpace(s[1..][i]) && IsSpace(s[1..][j]))
        {
          assert s[1..][i] == s[i + 1] && s[1..][j] == s[j + 1];
        }
      }
      CollapseFixesCollapsed(s[1..]);
      assert |s| > 1 ==> !(IsSpace(s[0]) && IsSpace(s[1]));
      assert s == [s[0]] + s[1..];
    }
  }

  lemma CollapseIdempotent(s: string)
    ensures Collapse(Collapse(s)) == Collapse(s)
  {
    CollapseIsCollapsed(s);
    CollapseFixesCollapsed(Collapse(s));
  }

  /** Text without white space passes through unchanged. */
  lemma {:induction false} CollapseNoSpacePrefix(x: string, y: string)
    requires NoSpace(x)
    ensures Collapse(x + y) == x + Collapse(y)
    decreases |x|
  {
    if x == [] {
      assert x + y == y;
    } else {
      var z := x + y;
      assert z[0] == x[0];
      assert z[1..] == x[1..] + y;
      assert NoSpace(x[1..]) by {
        forall i | 0 <= i < |x[1..]| ensures !IsSpace(x[1..][i]) {
          assert x[1..][i] == x[i + 1];
        }
      }
      CollapseNoSpacePrefix(x[1..], y);
      assert Collapse(z) == [x[0]] + (x[1..] + Collapse(y));
      assert x == [x[0]] + x[1..];
    }
  }

  /** A non-empty run of white space followed by the end or by a character
      that is not white space becomes a single space. */
  lemma {:induction false} CollapseSpaceRun(w: string, y: string)
    requires w != [] && AllSpace(w)
    requires y == [] || !IsSpace(y[0])
    ensures Collapse(w + y) == " " + Collapse(y)
    decreases |w|
  {
    var z := w + y;
    assert z[0] == w[0];
    assert z[1..] == w[1..] + y;
    if |w| == 1 {
      assert w[1..] + y == y;
    } else {
      assert z[1] == w[1];
      assert AllSpace(w[1..]) by {
        forall i | 0 <= i < |w[1..]| ensures IsSpace(w[1..][i]) {
          assert w[1..][i] == w[i + 1];
        }
      }
      CollapseSpaceRun(w[1..], y);
    }
  }

  /** Collapsing distributes over a concatenation whose second part starts
      with a character that is not white space. */
  lemma {:induction false} CollapseAppend(x: string, y: string)
    requires y != [] && !IsSpace(y[0])
    ensures Collapse(x + y) == Collapse(x) + Collapse(y)
    decreases |x|
  {
    if x == [] {
      assert x + y == y;
    } else {
      var c, w := x[0], x[1..];
      assert x == [c] + w;
      assert x + y == [c] + (w + y);
      CollapseAppend(w, y);
      CollapseCons(c, w);
      CollapseCons(c, w + y);
      var merged := IsSpace(c) && w != [] && IsSpace(w[0]);
      assert merged <==> IsSpace(c) && w + y != [] && IsSpace((w + y)[0]) by {
        if w != [] { assert (w + y)[0] == w[0]; } else { assert w + y == y; }
      }
      if !merged {
        AppendAssoc([if IsSpace(c) then ' ' else c], Collapse(w), Collapse(y));
      }
    }
  }

  lemma AppendAssoc(a: string, b: string, c: string)
    ensures (a + b) + c == a + (b + c)
  {
  }

  /** One step of `Collapse` on a string given as its first character and
      the rest. */
  lemma CollapseCons(c: char, w: string)
    ensures Collapse([c] + w) ==
      if IsSpace(c) && w != [] && IsSpace(w[0]) then Collapse(w)
      else [if IsSpace(c) then ' ' else c] + Collapse(w)
  {
    assert ([c] + w)[1..] == w;
  }

  /** ASCII lower-casing of one character. */
  function LowerChar(c: char): char
  {
    if 'A' <= c <= 'Z' then (c as int + 32) as char else c
  }

  /** `s.toLowerCase()`, restricted to ASCII letters. No other code point
      lower-cases to `.`, `w`, `a` or `v`, so comparisons with ".wav" are
      exact. */
  function ToLower(s: string): string
  {
    seq(|s|, i requires 0 <= i < |s| => LowerChar(s[i]))
  }

  predicate IsUpper(c: char)
  {
    'A' <= c <= 'Z'
  }

  /** Lower-casing keeps the length, leaves no upper-case letter behind,
      keeps every other character, and moves each upper-case letter to the
      lower-case letter at the same place in the alphabet. */
  lemma ToLowerCases(s: string)
    ensures var r := ToLower(s);
      && |r| == |s|
      && (forall i :: 0 <= i < |r| ==> !IsUpper(r[i]))
      && (forall i :: 0 <= i < |s| && !IsUpper(s[i]) ==> r[i] == s[i])
      && (forall i :: 0 <= i < |s| && IsUpper(s[i]) ==> 'a' <= r[i] <= 'z' && r[i] as int - 'a' as int == s[i] as int - 'A' as int)
  {
  }

  /** Lower-casing twice is lower-casing once. */
  lemma ToLowerIdempotent(s: string)
    ensures ToLower(ToLower(s)) == ToLower(s)
  {
    ToLowerCases(s);
  }
}

/**
 * The JavaScript string operations the notification plugin relies on, over
 * strings of Unicode code points: `String.prototype.trim`, the replacement of
 * every `/\s+/` run by one space, and `Array.prototype.join`.
 */
module JsStrings {

  /**
   * The characters matched by `\s` and removed by `trim`: ECMAScript's
   * WhiteSpace (tab, vertical tab, form feed, space, no-break space, the
   * byte-order mark and the Unicode space separators) and LineTerminator
   * (line feed, carriage return, line and paragraph separators).
   */
  predicate IsWhitespace(c: char): (b: bool)
    ensures c == ' ' || c == '\t' || c == '\n' || c == '\r' ==> b
    // next line (U+0085), the Mongolian vowel separator (U+180E) and the zero-width space (U+200B) are not in the set
    ensures c == '\U{85}' || c == '\U{180E}' || c == '\U{200B}' ==> !b
  {
    c == '\t' || c == '\n' || c == '\U{0B}' || c == '\U{0C}' || c == '\r' || c == ' ' ||
    c == '\U{A0}' || c == '\U{1680}' || ('\U{2000}' <= c <= '\U{200A}') ||
    c == '\U{2028}' || c == '\U{2029}' || c == '\U{202F}' || c == '\U{205F}' ||
    c == '\U{3000}' || c == '\U{FEFF}'
  }

  predicate AllWhitespace(s: string) {
    forall k :: 0 <= k < |s| ==> IsWhitespace(s[k])
  }

  /** A word: text without any whitespace character. */
  predicate NoWhitespace(s: string) {
    forall k :: 0 <= k < |s| ==> !IsWhitespace(s[k])
  }

  /** Neither the first nor the last character is whitespace. */
  predicate Trimmed(s: string) {
    s == [] || (!IsWhitespace(s[0]) && !IsWhitespace(s[|s| - 1]))
  }

  /** Every whitespace character is a plain space, and no two whitespace characters are adjacent. */
  predicate SingleSpaced(s: string) {
    && (forall k :: 0 <= k < |s| && IsWhitespace(s[k]) ==> s[k] == ' ')
    && (forall k :: 0 <= k < |s| - 1 ==> !(IsWhitespace(s[k]) && IsWhitespace(s[k + 1])))
  }

  /** The non-whitespace characters of `s`, in order: what whitespace normalisation must keep. */
  function NonWhitespace(s: string): (r: string)
    ensures |r| <= |s|
  {
    if s == [] then []
    else (if IsWhitespace(s[0]) then [] else [s[0]]) + NonWhitespace(s[1..])
  }

  lemma {:induction false} NonWhitespaceAppend(a: string, b: string)
    ensures NonWhitespace(a + b) == NonWhitespace(a) + NonWhitespace(b)
  {
    if a != [] {
      assert (a + b)[0] == a[0] && (a + b)[1..] == a[1..] + b;
      NonWhitespaceAppend(a[1..], b);
    } else {
      assert a + b == b;
    }
  }

  lemma {:induction false} NonWhitespaceEmpty(s: string)
    ensures NonWhitespace(s) == [] <==> AllWhitespace(s)
  {
    if s != [] {
      NonWhitespaceEmpty(s[1..]);
      assert forall k :: 1 <= k < |s| ==> s[k] == s[1..][k - 1];
    }
  }

  /** `trimStart`: drops the leading whitespace and nothing else. */
  function TrimStart(s: string): (r: string)
    ensures |r| <= |s|
    ensures s != [] && IsWhitespace(s[0]) ==> |r| < |s|
    ensures r == [] || !IsWhitespace(r[0])
  {
    if s != [] && IsWhitespace(s[0]) then TrimStart(s[1..]) else s
  }

  /** What `trimStart` drops is whitespace, and what it keeps is the rest of the input. */
  lemma {:induction false} TrimStartSplit(s: string)
    ensures TrimStart(s) == s[|s| - |TrimStart(s)|..]
    ensures forall k :: 0 <= k < |s| - |TrimStart(s)| ==> IsWhitespace(s[k])
  {
    if s != [] && IsWhitespace(s[0]) {
      var tail := s[1..];
      TrimStartSplit(tail);
      assert forall k :: 1 <= k < |s| ==> s[k] == tail[k - 1];
    }
  }

  /** `trimEnd`: drops the trailing whitespace and nothing else. */
  function TrimEnd(s: string): (r: string)
    ensures |r| <= |s|
    ensures r == [] || !IsWhitespace(r[|r| - 1])
    ensures r != [] ==> r[0] == s[0]
  {
    if s != [] && IsWhitespace(s[|s| - 1]) then TrimEnd(s[..|s| - 1]) else s
  }

  /** What `trimEnd` keeps is a prefix of the input, and what it drops is whitespace. */
  lemma {:induction false} TrimEndSplit(s: string)
    ensures TrimEnd(s) == s[..|TrimEnd(s)|]
    ensures forall k :: |TrimEnd(s)| <= k < |s| ==> IsWhitespace(s[k])
  {
    if s != [] && IsWhitespace(s[|s| - 1]) {
      var front := s[..|s| - 1];
      TrimEndSplit(front);
      assert forall k :: 0 <= k < |front| ==> front[k] == s[k];
    }
  }

  /** `String.prototype.trim`: drops the leading and the trailing whitespace. */
  function Trim(s: string): (r: string)
    ensures |r| <= |s| && Trimmed(r)
  {
    TrimEnd(TrimStart(s))
  }

  /** `trim` keeps a contiguous middle of the input and drops only whitespace on either side of it. */
  lemma TrimIsMiddle(s: string)
    ensures exists i, j :: 0 <= i <= j <= |s| && Trim(s) == s[i..j] && AllWhitespace(s[..i]) && AllWhitespace(s[j..])
  {
    var t := TrimStart(s);
    var i := |s| - |t|;
    TrimStartSplit(s);
    var m := TrimEnd(t);
    TrimEndSplit(t);
    var j := i + |m|;
    assert Trim(s) == s[i..j] by {
      assert t[..|m|] == s[i..j];
    }
    assert AllWhitespace(s[..i]) by {
      forall k | 0 <= k < i
        ensures IsWhitespace(s[..i][k])
      {
        assert s[..i][k] == s[k];
      }
    }
    assert AllWhitespace(s[j..]) by {
      forall k | 0 <= k < |s| - j
        ensures IsWhitespace(s[j..][k])
      {
        assert s[j..][k] == t[|m| + k];
      }
    }
  }

  lemma TrimStartKeepsContent(s: string)
    ensures NonWhitespace(TrimStart(s)) == NonWhitespace(s)
  {
    var t := TrimStart(s);
    var lead := s[..|s| - |t|];
    TrimStartSplit(s);
    assert s == lead + t;
    NonWhitespaceAppend(lead, t);
    NonWhitespaceEmpty(lead);
  }

  lemma TrimEndKeepsContent(s: string)
    ensures NonWhitespace(TrimEnd(s)) == NonWhitespace(s)
  {
    var t := TrimEnd(s);
    var trail := s[|t|..];
    TrimEndSplit(s);
    assert s == t + trail;
    assert AllWhitespace(trail) by {
      forall k | 0 <= k < |trail|
        ensures IsWhitespace(trail[k])
      {
        assert trail[k] == s[|t| + k];
      }
    }
    NonWhitespaceAppend(t, trail);
    NonWhitespaceEmpty(trail);
  }

  /** Trimming changes whitespace only: the other characters survive, in order. */
  lemma TrimKeepsContent(s: string)
    ensures NonWhitespace(Trim(s)) == NonWhitespace(s)
  {
    TrimStartKeepsContent(s);
    TrimEndKeepsContent(TrimStart(s));
  }

  /** `trim` yields the empty string exactly when the input is all whitespace. */
  lemma TrimEmpty(s: string)
    ensures Trim(s) == [] <==> AllWhitespace(s)
  {
    TrimKeepsContent(s);
    NonWhitespaceEmpty(s);
    NonWhitespaceEmpty(Trim(s));
  }

  lemma SliceSingleSpaced(s: string, i: nat, j: nat)
    requires i <= j <= |s| && SingleSpaced(s)
    ensures SingleSpaced(s[i..j])
  {
    var r := s[i..j];
    assert forall k :: 0 <= k < |r| ==> r[k] == s[i + k];
  }

  /** Appending a character that is not whitespace keeps a string single-spaced. */
  lemma AppendSingleSpaced(s: string, c: char)
    requires SingleSpaced(s) && !IsWhitespace(c)
    ensures SingleSpaced(s + [c])
  {
    var r := s + [c];
    assert forall k :: 0 <= k < |s| ==> r[k] == s[k];
    assert r[|s|] == c;
  }

  lemma {:induction false} TrimStartSingleSpaced(s: string)
    requires SingleSpaced(s)
    ensures SingleSpaced(TrimStart(s))
  {
    if s != [] && IsWhitespace(s[0]) {
      SliceSingleSpaced(s, 1, |s|);
      TrimStartSingleSpaced(s[1..]);
    }
  }

  lemma {:induction false} TrimEndSingleSpaced(s: string)
    requires SingleSpaced(s)
    ensures SingleSpaced(TrimEnd(s))
  {
    if s != [] && IsWhitespace(s[|s| - 1]) {
      SliceSingleSpaced(s, 0, |s| - 1);
      TrimEndSingleSpaced(s[..|s| - 1]);
    }
  }

  /** Cutting trimmed, single-spaced text short and closing it with a non-whitespace mark keeps both properties. */
  lemma CutAndMarkShape(s: string, n: nat, mark: char)
    requires Trimmed(s) && SingleSpaced(s) && 0 < n <= |s| && !IsWhitespace(mark)
    ensures Trimmed(s[..n] + [mark]) && SingleSpaced(s[..n] + [mark])
  {
    SliceSingleSpaced(s, 0, n);
    AppendSingleSpaced(s[..n], mark);
    assert (s[..n] + [mark])[0] == s[0];
  }

  /** `trim` preserves single spacing. */
  lemma TrimSingleSpaced(s: string)
    requires SingleSpaced(s)
    ensures SingleSpaced(Trim(s))
  {
    TrimStartSingleSpaced(s);
    TrimEndSingleSpaced(TrimStart(s));
  }

  /** `s.replace(/\s+/g, " ")`: every maximal run of whitespace becomes one space. */
  function CollapseWhitespace(s: string): (r: string)
    ensures SingleSpaced(r)
    ensures r == [] <==> s == []
    ensures r != [] ==> (IsWhitespace(r[0]) <==> IsWhitespace(s[0]))
    decreases |s|
  {
    if s == [] then []
    else if IsWhitespace(s[0]) then [' '] + CollapseWhitespace(TrimStart(s))
    else [s[0]] + CollapseWhitespace(s[1..])
  }

  /** Collapsing changes whitespace only: the other characters survive, in order. */
  lemma {:induction false} CollapseKeepsContent(s: string)
    ensures NonWhitespace(CollapseWhitespace(s)) == NonWhitespace(s)
    decreases |s|
  {
    if s != [] {
      var r := CollapseWhitespace(s);
      if IsWhitespace(s[0]) {
        var t := TrimStart(s);
        CollapseKeepsContent(t);
        NonWhitespaceAppend([' '], CollapseWhitespace(t));
        var lead := s[..|s| - |t|];
        TrimStartSplit(s);
        assert s == lead + t;
        NonWhitespaceAppend(lead, t);
        NonWhitespaceEmpty(lead);
      } else {
        CollapseKeepsContent(s[1..]);
        NonWhitespaceAppend([s[0]], CollapseWhitespace(s[1..]));
      }
    }
  }

  /** Text that is already single-spaced is left unchanged by collapsing. */
  lemma {:induction false} CollapseFixpoint(s: string)
    requires SingleSpaced(s)
    ensures CollapseWhitespace(s) == s
  {
    if s != [] {
      var tail := s[1..];
      SliceSingleSpaced(s, 1, |s|);
      CollapseFixpoint(tail);
      if IsWhitespace(s[0]) {
        if tail != [] {
          assert tail[0] == s[1];
          assert !(IsWhitespace(s[0]) && IsWhitespace(s[1]));
        }
        assert TrimStart(tail) == tail;
        assert TrimStart(s) == tail;
        assert s == [' '] + tail;
      } else {
        assert s == [s[0]] + tail;
      }
    }
  }

  /** `xs.join(sep)`: the elements in order, `sep` between neighbours. */
  function Join(xs: seq<string>, sep: string): (r: string)
    ensures xs == [] ==> r == []
    ensures |xs| == 1 ==> r == xs[0]
  {
    if xs == [] then []
    else if |xs| == 1 then xs[0]
    else xs[0] + sep + Join(xs[1..], sep)
  }

  lemma {:induction false} JoinAppend(xs: seq<string>, y: string, sep: string)
    requires xs != []
    ensures Join(xs + [y], sep) == Join(xs, sep) + sep + y
  {
    if |xs| > 1 {
      assert (xs + [y])[1..] == xs[1..] + [y];
      JoinAppend(xs[1..], y, sep);
    } else {
      assert (xs + [y])[1..] == [y];
    }
  }

  /** With a whitespace separator, the joined text is blank exactly when every element is. */
  lemma {:induction false} JoinAllWhitespace(xs: seq<string>, sep: string)
    requires AllWhitespace(sep)
    ensures AllWhitespace(Join(xs, sep)) <==> forall k :: 0 <= k < |xs| ==> AllWhitespace(xs[k])
  {
    if |xs| > 1 {
      JoinAllWhitespace(xs[1..], sep);
      var j := Join(xs[1..], sep);
      assert Join(xs, sep) == xs[0] + sep + j;
      assert forall k :: 0 <= k < |xs[0]| ==> Join(xs, sep)[k] == xs[0][k];
      assert forall k :: 0 <= k < |j| ==> Join(xs, sep)[|xs[0]| + |sep| + k] == j[k];
      assert forall k :: 1 <= k < |xs| ==> xs[k] == xs[1..][k - 1];
    }
  }

  /** Text without leading or trailing whitespace is left unchanged by `trim`. */
  lemma TrimmedUnchanged(s: string)
    requires Trimmed(s)
    ensures Trim(s) == s
  {
    assert TrimStart(s) == s;
  }

  /** Trimmed, single-spaced text is a fixed point of collapsing followed by trimming. */
  lemma NormalizedFixpoint(s: string)
    requires SingleSpaced(s) && Trimmed(s)
    ensures Trim(CollapseWhitespace(s)) == s
  {
    CollapseFixpoint(s);
    TrimmedUnchanged(s);
  }

  /** A character that is not whitespace passes through collapsing. */
  lemma CollapseKeepsChar(c: char, s: string)
    requires !IsWhitespace(c)
    ensures CollapseWhitespace([c] + s) == [c] + CollapseWhitespace(s)
  {
    assert ([c] + s)[1..] == s;
  }

  /** A word passes through collapsing unchanged. */
  lemma {:induction false} CollapseWord(u: string, s: string)
    requires NoWhitespace(u)
    ensures CollapseWhitespace(u + s) == u + CollapseWhitespace(s)
  {
    if u != [] {
      assert u + s == [u[0]] + (u[1..] + s);
      CollapseWord(u[1..], s);
      CollapseKeepsChar(u[0], u[1..] + s);
    } else {
      assert u + s == s;
    }
  }

  /** `trimStart` drops a whole leading whitespace run and stops at the first other character. */
  lemma {:induction false} TrimStartRun(w: string, s: string)
    requires AllWhitespace(w) && (s == [] || !IsWhitespace(s[0]))
    ensures TrimStart(w + s) == s
  {
    if w == [] {
      assert w + s == s;
    } else {
      assert (w + s)[0] == w[0];
      assert (w + s)[1..] == w[1..] + s;
      TrimStartRun(w[1..], s);
    }
  }

  /** A maximal whitespace run, whatever its length and characters, becomes exactly one plain space. */
  lemma CollapseRun(w: string, s: string)
    requires w != [] && AllWhitespace(w) && (s == [] || !IsWhitespace(s[0]))
    ensures CollapseWhitespace(w + s) == [' '] + CollapseWhitespace(s)
  {
    TrimStartRun(w, s);
    assert (w + s)[0] == w[0];
  }

  /** A word is trimmed and single-spaced. */
  lemma WordShape(s: string)
    requires NoWhitespace(s)
    ensures Trimmed(s) && SingleSpaced(s)
  {
  }

  /** Two words around a whitespace run collapse to the words with one space between them. */
  lemma CollapseBetweenWords(u: string, w: string, v: string)
    requires NoWhitespace(u) && NoWhitespace(v) && v != []
    requires w != [] && AllWhitespace(w)
    ensures CollapseWhitespace(u + w + v) == u + [' '] + v
  {
    assert u + w + v == u + (w + v);
    CollapseWord(u, w + v);
    CollapseRun(w, v);
    WordShape(v);
    CollapseFixpoint(v);
    assert u + ([' '] + v) == u + [' '] + v;
  }
}

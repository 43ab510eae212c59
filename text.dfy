/**
 * The string operations of Go's standard library that the disk report parser
 * and the screen rely on: `strings.Split` on newlines, `strings.TrimSpace`,
 * `strings.HasPrefix`, `strings.TrimSuffix`, `strings.Repeat`, and splitting a
 * line around runs of the regular expression `\s+`.
 *
 * Strings are sequences of Unicode code points.
 */
module Text {

  /** Go's `unicode.IsSpace`: the Latin-1 spaces and the code points with the
      Unicode White_Space property. `strings.TrimSpace` trims exactly these. */
  predicate IsSpace(c: char) {
    || c == '\t' || c == '\n' || c == '\U{0B}' || c == '\U{0C}' || c == '\r' || c == ' '
    || c == '\U{85}' || c == '\U{A0}' || c == '\U{1680}'
    || ('\U{2000}' <= c <= '\U{200A}')
    || c == '\U{2028}' || c == '\U{2029}' || c == '\U{202F}' || c == '\U{205F}' || c == '\U{3000}'
  }

  /** The class `\s` of Go's regular expressions (RE2 syntax): `[\t\n\f\r ]`.
      It is narrower than `IsSpace`: a vertical tab, for one, is not in it. */
  predicate IsRegexSpace(c: char) {
    c == '\t' || c == '\n' || c == '\U{0C}' || c == '\r' || c == ' '
  }

  ghost predicate AllSpace(s: string) {
    forall k :: 0 <= k < |s| ==> IsSpace(s[k])
  }

  ghost predicate AllRegexSpace(s: string) {
    forall k :: 0 <= k < |s| ==> IsRegexSpace(s[k])
  }

  ghost predicate NoRegexSpace(s: string) {
    forall k :: 0 <= k < |s| ==> !IsRegexSpace(s[k])
  }

  /** `parts` written one after the other with `sep` between neighbours
      (Go's `strings.Join`); used here to state what the splitters invert. */
  function Join(parts: seq<string>, sep: string): string
  {
    if parts == [] then []
    else if |parts| == 1 then parts[0]
    else parts[0] + sep + Join(parts[1..], sep)
  }

  // ---------------------------------------------------------------------------
  // strings.Split(s, "\n")

  /** The pieces of `s` between its newlines. There is always at least one
      piece: the empty text gives one empty piece, and a trailing newline gives
      an empty last piece. */
  function SplitLines(s: string): (lines: seq<string>)
    ensures |lines| >= 1
    decreases |s|
  {
    if s == [] then [[]]
    else if s[0] == '\n' then [[]] + SplitLines(s[1..])
    else
      var rest := SplitLines(s[1..]);
      [[s[0]] + rest[0]] + rest[1..]
  }

  /** No piece holds a newline. */
  lemma {:induction false} SplitLinesNoNewline(s: string)
    ensures forall k :: 0 <= k < |SplitLines(s)| ==> '\n' !in SplitLines(s)[k]
    decreases |s|
  {
    if s != [] {
      SplitLinesNoNewline(s[1..]);
    }
  }

  /** Text without a newline in front of `t` only extends the first piece. */
  lemma {:induction false} SplitLinesPrefix(h: string, t: string)
    requires '\n' !in h
    ensures SplitLines(h + t) == [h + SplitLines(t)[0]] + SplitLines(t)[1..]
    decreases |h|
  {
    var st := SplitLines(t);
    if h == [] {
      assert h + t == t;
      assert h + st[0] == st[0];
      assert st == [st[0]] + st[1..];
    } else {
      var s := h + t;
      assert s[0] == h[0] && h[0] != '\n';
      assert s[1..] == h[1..] + t;
      SplitLinesPrefix(h[1..], t);
      var rest := SplitLines(s[1..]);
      assert rest == [h[1..] + st[0]] + st[1..];
      assert SplitLines(s) == [[s[0]] + rest[0]] + rest[1..];
      assert [h[0]] + (h[1..] + st[0]) == h + st[0];
      assert rest[1..] == st[1..];
    }
  }

  /** A line without a newline, then a newline: that line is the first piece. */
  lemma SplitLinesCons(h: string, rest: string)
    requires '\n' !in h
    ensures SplitLines(h + "\n" + rest) == [h] + SplitLines(rest)
  {
    var t := "\n" + rest;
    assert h + "\n" + rest == h + t;
    SplitLinesPrefix(h, t);
    assert t[0] == '\n' && t[1..] == rest;
    var st := SplitLines(t);
    assert st == [[]] + SplitLines(rest);
    assert h + st[0] == h;
    assert st[1..] == SplitLines(rest);
  }

  /** Text without a newline is a single piece. */
  lemma SplitLinesSingle(h: string)
    requires '\n' !in h
    ensures SplitLines(h) == [h]
  {
    SplitLinesPrefix(h, []);
    assert h + [] == h;
  }

  lemma JoinCons(p: string, ps: seq<string>, sep: string)
    requires |ps| >= 1
    ensures Join([p] + ps, sep) == p + sep + Join(ps, sep)
  {
    assert ([p] + ps)[1..] == ps;
  }

  /** A character in front of the first line stays in front of the join. */
  lemma JoinConsFirst(c: char, ls: seq<string>, sep: string)
    requires |ls| >= 1
    ensures Join([[c] + ls[0]] + ls[1..], sep) == [c] + Join(ls, sep)
  {
    if |ls| > 1 {
      assert ls == [ls[0]] + ls[1..];
      JoinCons(ls[0], ls[1..], sep);
      JoinCons([c] + ls[0], ls[1..], sep);
    }
  }

  /** Joining the pieces with newlines gives back the text. */
  lemma {:induction false} JoinSplitLines(s: string)
    ensures Join(SplitLines(s), "\n") == s
    decreases |s|
  {
    if s != [] {
      var rest := SplitLines(s[1..]);
      JoinSplitLines(s[1..]);
      assert s == [s[0]] + s[1..];
      if s[0] == '\n' {
        JoinCons([], rest, "\n");
      } else {
        JoinConsFirst(s[0], rest, "\n");
      }
    }
  }

  /** Splitting newline-joined lines that hold no newline gives them back. */
  lemma {:induction false} SplitJoinLines(lines: seq<string>)
    requires |lines| >= 1
    requires forall k :: 0 <= k < |lines| ==> '\n' !in lines[k]
    ensures SplitLines(Join(lines, "\n")) == lines
  {
    if |lines| == 1 {
      SplitLinesSingle(lines[0]);
    } else {
      SplitJoinLines(lines[1..]);
      SplitLinesCons(lines[0], Join(lines[1..], "\n"));
      assert lines == [lines[0]] + lines[1..];
    }
  }

  lemma {:induction false} JoinSnoc(ps: seq<string>, p: string, sep: string)
    requires |ps| >= 1
    ensures Join(ps + [p], sep) == Join(ps, sep) + sep + p
    decreases |ps|
  {
    var qs := ps + [p];
    assert qs[0] == ps[0];
    if |ps| == 1 {
      assert qs[1..] == [p];
    } else {
      assert qs[1..] == ps[1..] + [p];
      JoinSnoc(ps[1..], p, sep);
    }
  }

  /** Lines that each end in a newline split into those lines and an empty
      last piece. */
  lemma SplitTerminatedLines(lines: seq<string>)
    requires |lines| >= 1
    requires forall k :: 0 <= k < |lines| ==> '\n' !in lines[k]
    ensures SplitLines(Join(lines, "\n") + "\n") == lines + [[]]
  {
    var all := lines + [[]];
    JoinSnoc(lines, [], "\n");
    assert Join(lines, "\n") + "\n" + [] == Join(lines, "\n") + "\n";
    forall k | 0 <= k < |all| ensures '\n' !in all[k] {
      if k < |lines| {
        assert all[k] == lines[k];
      }
    }
    SplitJoinLines(all);
  }

  // ---------------------------------------------------------------------------
  // strings.TrimSpace

  function TrimLeft(s: string): (t: string)
    ensures |t| <= |s| && t == s[|s| - |t|..]
    ensures t == [] || !IsSpace(t[0])
    decreases |s|
  {
    if s != [] && IsSpace(s[0]) then TrimLeft(s[1..]) else s
  }

  lemma {:induction false} TrimLeftRemovesSpaces(s: string)
    ensures AllSpace(s[..|s| - |TrimLeft(s)|])
    decreases |s|
  {
    if s != [] && IsSpace(s[0]) {
      TrimLeftRemovesSpaces(s[1..]);
      var n := |s| - |TrimLeft(s)|;
      assert s[..n] == [s[0]] + s[1..][..n - 1];
    }
  }

  function TrimRight(s: string): (t: string)
    ensures |t| <= |s| && t == s[..|t|]
    ensures t == [] || !IsSpace(t[|t| - 1])
    decreases |s|
  {
    if s != [] && IsSpace(s[|s| - 1]) then TrimRight(s[..|s| - 1]) else s
  }

  lemma {:induction false} TrimRightRemovesSpaces(s: string)
    ensures AllSpace(s[|TrimRight(s)|..])
    decreases |s|
  {
    if s != [] && IsSpace(s[|s| - 1]) {
      var init := s[..|s| - 1];
      TrimRightRemovesSpaces(init);
      var n := |TrimRight(s)|;
      assert s[n..] == init[n..] + [s[|s| - 1]];
    }
  }

  /** `s` without its leading and trailing spaces: what is removed is all
      space, and what remains neither starts nor ends with a space. */
  function TrimSpace(s: string): (t: string)
    ensures t == [] || (!IsSpace(t[0]) && !IsSpace(t[|t| - 1]))
  {
    TrimRight(TrimLeft(s))
  }

  /** TrimSpace removes spaces only: `s` is the result with one block of
      spaces before it and one after it. */
  lemma TrimSpaceRemovesSpaces(s: string)
    ensures exists i :: (0 <= i <= |s| - |TrimSpace(s)| && s[i..i + |TrimSpace(s)|] == TrimSpace(s)
                         && AllSpace(s[..i]) && AllSpace(s[i + |TrimSpace(s)|..]))
  {
    var l := TrimLeft(s);
    var t := TrimRight(l);
    var i := |s| - |l|;
    TrimLeftRemovesSpaces(s);
    TrimRightRemovesSpaces(l);
    assert s[i..] == l;
    assert s[i..i + |t|] == t by {
      assert s[i..i + |t|] == l[..|t|];
    }
    assert s[i + |t|..] == l[|t|..];
    assert TrimSpace(s) == t;
    assert 0 <= i <= |s| - |t| && s[i..i + |t|] == t && AllSpace(s[..i]) && AllSpace(s[i + |t|..]);
  }

  lemma {:induction false} TrimLeftSpaces(w: string, r: string)
    requires AllSpace(w)
    requires r == [] || !IsSpace(r[0])
    ensures TrimLeft(w + r) == r
    decreases |w|
  {
    if w == [] {
      assert w + r == r;
    } else {
      assert (w + r)[0] == w[0];
      assert (w + r)[1..] == w[1..] + r;
      TrimLeftSpaces(w[1..], r);
    }
  }

  lemma {:induction false} TrimRightSpaces(r: string, w: string)
    requires AllSpace(w)
    requires r == [] || !IsSpace(r[|r| - 1])
    ensures TrimRight(r + w) == r
    decreases |w|
  {
    if w == [] {
      assert r + w == r;
    } else {
      assert (r + w)[|r + w| - 1] == w[|w| - 1];
      assert (r + w)[..|r + w| - 1] == r + w[..|w| - 1];
      TrimRightSpaces(r, w[..|w| - 1]);
    }
  }

  /** TrimSpace removes exactly the surrounding spaces: whatever text is
      padded with spaces on either side, trimming gives that text back. */
  lemma TrimSpacePadded(w1: string, t: string, w2: string)
    requires AllSpace(w1) && AllSpace(w2)
    requires t == [] || (!IsSpace(t[0]) && !IsSpace(t[|t| - 1]))
    ensures TrimSpace(w1 + t + w2) == t
  {
    if t == [] {
      assert w1 + t + w2 == (w1 + w2) + [];
      assert AllSpace(w1 + w2);
      TrimLeftSpaces(w1 + w2, []);
    } else {
      assert w1 + t + w2 == w1 + (t + w2);
      TrimLeftSpaces(w1, t + w2);
      TrimRightSpaces(t, w2);
    }
  }

  // ---------------------------------------------------------------------------
  // strings.HasPrefix, strings.TrimSuffix, strings.Repeat

  predicate HasPrefix(s: string, prefix: string) {
    |prefix| <= |s| && s[..|prefix|] == prefix
  }

  predicate HasSuffix(s: string, suffix: string) {
    |suffix| <= |s| && s[|s| - |suffix|..] == suffix
  }

  /** `s` with one trailing `suffix` removed, or `s` itself when it does not
      end with `suffix`. */
  function TrimSuffix(s: string, suffix: string): (t: string)
    ensures HasSuffix(s, suffix) ==> t + suffix == s
    ensures !HasSuffix(s, suffix) ==> t == s
  {
    if HasSuffix(s, suffix) then s[..|s| - |suffix|] else s
  }

  /** `n` copies of `c`. Go's `strings.Repeat` panics on a negative count,
      so the count is a `nat` and every caller proves it non-negative. */
  function Repeat(c: char, n: nat): (r: string)
    ensures |r| == n
    ensures forall k :: 0 <= k < n ==> r[k] == c
  {
    seq(n, _ => c)
  }

  // ---------------------------------------------------------------------------
  // regexp.MustCompile(`\s+`).Split(s, -1)

  /** Length of the longest prefix of `s` without a `\s` character. */
  function WordLength(s: string): (n: nat)
    ensures n <= |s|
    ensures n == |s| || IsRegexSpace(s[n])
    decreases |s|
  {
    if s == [] || IsRegexSpace(s[0]) then 0 else 1 + WordLength(s[1..])
  }

  lemma {:induction false} WordLengthNoSpace(s: string)
    ensures NoRegexSpace(s[..WordLength(s)])
    decreases |s|
  {
    if s != [] && !IsRegexSpace(s[0]) {
      WordLengthNoSpace(s[1..]);
      assert s[..WordLength(s)] == [s[0]] + s[1..][..WordLength(s[1..])];
    }
  }

  /** `s` without its leading `\s` characters. */
  function DropSpaces(s: string): (t: string)
    ensures |t| <= |s| && t == s[|s| - |t|..]
    ensures t == [] || !IsRegexSpace(t[0])
    ensures s != [] && IsRegexSpace(s[0]) ==> |t| < |s|
    decreases |s|
  {
    if s != [] && IsRegexSpace(s[0]) then DropSpaces(s[1..]) else s
  }

  /** The pieces of `s` around its maximal runs of `\s` characters, as Go's
      `Regexp.Split(s, -1)` returns them for the pattern `\s+`: there is
      always at least one piece (see SplitFieldsNoSpace for what the pieces
      hold). A leading (trailing) run gives an empty first (last) piece. */
  function SplitFields(s: string): (fields: seq<string>)
    ensures |fields| >= 1
    decreases |s|
  {
    var w := WordLength(s);
    if w == |s| then [s]
    else [s[..w]] + SplitFields(DropSpaces(s[w..]))
  }

  /** One step of SplitFields at the first `\s` run of `s`. */
  lemma SplitFieldsStep(s: string)
    requires WordLength(s) < |s|
    ensures SplitFields(s) == [s[..WordLength(s)]] + SplitFields(DropSpaces(s[WordLength(s)..]))
  {
  }

  /** A word without `\s` followed by pieces without `\s` gives pieces
      without `\s`. */
  lemma ConsNoSpace(first: string, tail: seq<string>)
    requires NoRegexSpace(first)
    requires forall k :: 0 <= k < |tail| ==> NoRegexSpace(tail[k])
    ensures forall k :: 0 <= k < |[first] + tail| ==> NoRegexSpace(([first] + tail)[k])
  {
    assert forall k :: 1 <= k < |tail| + 1 ==> ([first] + tail)[k] == tail[k - 1];
  }

  /** No piece holds a `\s` character. */
  lemma {:induction false} SplitFieldsNoSpace(s: string)
    ensures forall k :: 0 <= k < |SplitFields(s)| ==> NoRegexSpace(SplitFields(s)[k])
    decreases |s|
  {
    var w := WordLength(s);
    WordLengthNoSpace(s);
    if w == |s| {
      assert s[..w] == s;
      assert SplitFields(s) == [s];
    } else {
      var rest := DropSpaces(s[w..]);
      SplitFieldsNoSpace(rest);
      SplitFieldsStep(s);
      ConsNoSpace(s[..w], SplitFields(rest));
    }
  }

  lemma {:induction false} WordLengthAtLeast(s: string, m: nat)
    requires m <= |s| && NoRegexSpace(s[..m])
    ensures WordLength(s) >= m
    decreases |s|
  {
    if m > 0 {
      assert s[..m][0] == s[0];
      assert s[1..][..m - 1] == s[..m][1..];
      WordLengthAtLeast(s[1..], m - 1);
    }
  }

  /** Dropping leading `\s` characters keeps a last character that is not
      one. */
  lemma {:induction false} DropSpacesKeepsLast(t: string)
    requires t != [] && !IsRegexSpace(t[|t| - 1])
    ensures DropSpaces(t) != [] && DropSpaces(t)[|DropSpaces(t)| - 1] == t[|t| - 1]
    decreases |t|
  {
    if IsRegexSpace(t[0]) {
      assert t[1..][|t| - 2] == t[|t| - 1];
      DropSpacesKeepsLast(t[1..]);
    }
  }

  /** A non-empty word followed by non-empty pieces gives non-empty pieces. */
  lemma ConsNonEmpty(first: string, tail: seq<string>)
    requires first != []
    requires forall k :: 0 <= k < |tail| ==> tail[k] != []
    ensures forall k :: 0 <= k < |[first] + tail| ==> ([first] + tail)[k] != []
  {
    assert forall k :: 1 <= k < |tail| + 1 ==> ([first] + tail)[k] == tail[k - 1];
  }

  /** When `s` neither starts nor ends with a `\s` character and is not
      empty, no piece is empty. */
  lemma {:induction false} SplitFieldsNonEmpty(s: string)
    requires s != [] && !IsRegexSpace(s[0]) && !IsRegexSpace(s[|s| - 1])
    ensures forall k :: 0 <= k < |SplitFields(s)| ==> SplitFields(s)[k] != []
    decreases |s|
  {
    var w := WordLength(s);
    if w == |s| {
      assert SplitFields(s) == [s];
    } else {
      SplitFieldsRest(s);
      var rest := DropSpaces(s[w..]);
      SplitFieldsNonEmpty(rest);
      ConsNonEmpty(s[..w], SplitFields(rest));
    }
  }

  /** Past the first word of such an `s`, what is left to split is shorter
      and again neither starts nor ends with a `\s` character. */
  lemma SplitFieldsRest(s: string)
    requires s != [] && !IsRegexSpace(s[0]) && !IsRegexSpace(s[|s| - 1])
    requires WordLength(s) < |s|
    ensures var w := WordLength(s); var rest := DropSpaces(s[w..]);
      && w > 0 && |rest| < |s|
      && rest != [] && !IsRegexSpace(rest[0]) && !IsRegexSpace(rest[|rest| - 1])
      && SplitFields(s) == [s[..w]] + SplitFields(rest)
  {
    var w := WordLength(s);
    var tail := s[w..];
    assert tail[|tail| - 1] == s[|s| - 1];
    DropSpacesKeepsLast(tail);
    SplitFieldsStep(s);
  }

  /** The first piece starts the text: a prefix of `s` without `\s`
      characters is also a prefix of the first piece. */
  lemma FirstFieldPrefix(s: string, prefix: string)
    requires HasPrefix(s, prefix) && NoRegexSpace(prefix)
    ensures HasPrefix(SplitFields(s)[0], prefix)
  {
    WordLengthAtLeast(s, |prefix|);
    var w := WordLength(s);
    assert SplitFields(s)[0] == s[..w];
    assert s[..w][..|prefix|] == s[..|prefix|];
  }

  lemma {:induction false} WordLengthOf(w: string, rest: string)
    requires NoRegexSpace(w)
    requires rest == [] || IsRegexSpace(rest[0])
    ensures WordLength(w + rest) == |w|
    decreases |w|
  {
    if w == [] {
      assert w + rest == rest;
    } else {
      assert (w + rest)[0] == w[0];
      assert (w + rest)[1..] == w[1..] + rest;
      WordLengthOf(w[1..], rest);
    }
  }

  /** `words` written one after the other, with `gaps[k]` between `words[k]`
      and `words[k + 1]`: a line whose fields are padded to align them. */
  function Interleave(words: seq<string>, gaps: seq<string>): string
    requires |words| >= 1 && |gaps| == |words| - 1
  {
    if |words| == 1 then words[0]
    else words[0] + gaps[0] + Interleave(words[1..], gaps[1..])
  }

  /** Separators that `\s+` matches whole: non-empty runs of `\s`. */
  ghost predicate Separators(gaps: seq<string>) {
    forall k :: 0 <= k < |gaps| ==> gaps[k] != [] && AllRegexSpace(gaps[k])
  }

  lemma {:induction false} DropSpacesOf(sep: string, rest: string)
    requires AllRegexSpace(sep)
    requires rest == [] || !IsRegexSpace(rest[0])
    ensures DropSpaces(sep + rest) == rest
    decreases |sep|
  {
    if sep == [] {
      assert sep + rest == rest;
    } else {
      assert (sep + rest)[0] == sep[0];
      assert (sep + rest)[1..] == sep[1..] + rest;
      DropSpacesOf(sep[1..], rest);
    }
  }

  /** The first word starts the line and the last word ends it. */
  lemma {:induction false} InterleaveEdges(words: seq<string>, gaps: seq<string>)
    requires |words| >= 1 && |gaps| == |words| - 1
    ensures HasPrefix(Interleave(words, gaps), words[0])
    ensures HasSuffix(Interleave(words, gaps), words[|words| - 1])
  {
    if |words| > 1 {
      var rest := Interleave(words[1..], gaps[1..]);
      InterleaveEdges(words[1..], gaps[1..]);
      var s := words[0] + gaps[0] + rest;
      assert s[..|words[0]|] == words[0];
      assert s[|s| - |rest|..] == rest;
    }
  }

  /** A character in none of the words and none of the gaps is not in the
      line they make. */
  lemma {:induction false} InterleaveAvoids(words: seq<string>, gaps: seq<string>, c: char)
    requires |words| >= 1 && |gaps| == |words| - 1
    requires forall k :: 0 <= k < |words| ==> c !in words[k]
    requires forall k :: 0 <= k < |gaps| ==> c !in gaps[k]
    ensures c !in Interleave(words, gaps)
  {
    if |words| > 1 {
      assert c !in words[0] && c !in gaps[0];
      InterleaveAvoids(words[1..], gaps[1..], c);
    }
  }

  /** A word, a run of `\s` characters, then text that does not start with
      one: the word is the first piece. */
  lemma SplitFieldsCons(first: string, gap: string, rest: string)
    requires first != [] && NoRegexSpace(first)
    requires gap != [] && AllRegexSpace(gap)
    requires rest == [] || !IsRegexSpace(rest[0])
    ensures SplitFields(first + gap + rest) == [first] + SplitFields(rest)
  {
    var s := first + (gap + rest);
    assert first + gap + rest == s;
    WordLengthOf(first, gap + rest);
    DropSpacesOf(gap, rest);
    var w := |first|;
    assert s[..w] == first;
    assert s[w..] == gap + rest;
  }

  /** Splitting non-empty words without `\s` characters, padded apart by
      runs of `\s` characters of any lengths, gives the words back. */
  lemma {:induction false} SplitJoinFields(words: seq<string>, gaps: seq<string>)
    requires |words| >= 1 && |gaps| == |words| - 1
    requires forall k :: 0 <= k < |words| ==> words[k] != [] && NoRegexSpace(words[k])
    requires Separators(gaps)
    ensures SplitFields(Interleave(words, gaps)) == words
  {
    if |words| == 1 {
      WordLengthOf(words[0], []);
      assert words[0] + [] == words[0];
    } else {
      var more := words[1..];
      var rest := Interleave(more, gaps[1..]);
      SplitJoinFields(more, gaps[1..]);
      InterleaveEdges(more, gaps[1..]);
      assert rest[0] == more[0][0];
      SplitFieldsCons(words[0], gaps[0], rest);
      assert words == [words[0]] + more;
    }
  }

  // ---------------------------------------------------------------------------
  // Facts about sequences, stated once for any element type

  /** Regrouping a concatenation. Screen.BlocksAppend calls it because the
      verifier handles the call far more cheaply than the same fact as an
      inline assert. */
  lemma ConcatAssoc<T>(a: seq<T>, b: seq<T>, c: seq<T>)
    ensures (a + b) + c == a + (b + c)
  {
  }

  /** A non-empty sequence is its front followed by its last element.
      Screen.BlocksAppend and DiskParser.ParseLinesEach call it for the same
      reason as ConcatAssoc. */
  lemma SplitLast<T>(a: seq<T>, b: seq<T>)
    requires b != []
    ensures b == b[..|b| - 1] + [b[|b| - 1]]
    ensures a + b == (a + b[..|b| - 1]) + [b[|b| - 1]]
  {
  }
}

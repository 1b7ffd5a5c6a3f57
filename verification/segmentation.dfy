/**
 The chunker's two text splitters: paragraphs, split on blank lines with the
 pattern `\n\s*\n`, and sentences, split on the whitespace after `.`, `!` or
 `?` with the pattern `(?<=[.!?])\s+`. Each splits the way Python's `re.split`
 does (leftmost match, greedy, scanning resumes after the match), then strips
 every piece and drops the blank ones.
 */
module Segmentation {
  import opened Outcomes
  import opened Text

  datatype Separator =
    | BlankLine    // `\n\s*\n`
    | SentenceEnd  // `(?<=[.!?])\s+`

  /** End of the maximal whitespace run that starts at `i`. */
  function SpaceRunEnd(s: string, i: nat): (e: nat)
    requires i <= |s|
    ensures i <= e <= |s|
    ensures forall k :: i <= k < e ==> IsSpace(s[k])
    ensures e == |s| || !IsSpace(s[e])
    decreases |s| - i
  {
    if i < |s| && IsSpace(s[i]) then SpaceRunEnd(s, i + 1) else i
  }

  /** The last newline in `s[lo..hi]`, if there is one. */
  function LastNewline(s: string, lo: nat, hi: nat): (r: Option<nat>)
    requires lo <= hi <= |s|
    ensures r.Some? ==> lo <= r.value < hi && s[r.value] == '\n'
                        && forall k :: r.value < k < hi ==> s[k] != '\n'
    ensures r.None? ==> forall k :: lo <= k < hi ==> s[k] != '\n'
    decreases hi - lo
  {
    if lo == hi then None
    else if s[hi - 1] == '\n' then Some(hi - 1)
    else LastNewline(s, lo, hi - 1)
  }

  /** The end (exclusive) of the match of `sep` that starts at `i`, if one
      starts there. For `BlankLine` the greedy `\s*` runs to the end of the
      whitespace run and backtracks to its last newline; for `SentenceEnd`
      the look-behind inspects the character before `i`. Every match is
      non-empty and consists of whitespace only. */
  function MatchAt(sep: Separator, s: string, i: nat): (e: Option<nat>)
    requires i < |s|
    ensures e.Some? ==> i < e.value <= |s| && forall k :: i <= k < e.value ==> IsSpace(s[k])
    ensures sep == BlankLine && e.Some? ==>
              && s[i] == '\n' && i + 2 <= e.value && s[e.value - 1] == '\n'
              && forall k :: e.value <= k < SpaceRunEnd(s, i + 1) ==> s[k] != '\n'
    ensures sep == BlankLine && e.None? ==>
              s[i] != '\n' || forall k :: i < k < SpaceRunEnd(s, i + 1) ==> s[k] != '\n'
    ensures sep == SentenceEnd ==> (e.Some? <==> 0 < i && s[i - 1] in ".!?" && IsSpace(s[i]))
    ensures sep == SentenceEnd && e.Some? ==> e.value == |s| || !IsSpace(s[e.value])
  {
    match sep
    case BlankLine =>
      if s[i] != '\n' then None
      else
        (match LastNewline(s, i + 1, SpaceRunEnd(s, i + 1))
         case None => None
         case Some(j) => Some(j + 1))
    case SentenceEnd =>
      if 0 < i && s[i - 1] in ".!?" && IsSpace(s[i]) then Some(SpaceRunEnd(s, i)) else None
  }

  /** `re.split` from scan position `pos`, with the piece being collected
      starting at `start`. */
  function SplitFrom(sep: Separator, s: string, start: nat, pos: nat): (r: seq<string>)
    requires start <= pos <= |s|
    ensures |r| >= 1
    decreases |s| - pos
  {
    if pos == |s| then [s[start..]]
    else
      match MatchAt(sep, s, pos)
      case Some(e) => [s[start..pos]] + SplitFrom(sep, s, e, e)
      case None => SplitFrom(sep, s, start, pos + 1)
  }

  /** Python's `re.split(pattern, s)` for the two patterns above: at least
      one piece, no piece holding a match of the pattern, and the pieces
      together holding every non-whitespace character of `s`, in order. */
  function RegexSplit(sep: Separator, s: string): (r: seq<string>)
    ensures |r| >= 1
    ensures NoneHoldsMatch(sep, r)
    ensures Visible(Concat(r)) == Visible(s)
  {
    SplitFromHasNoMatch(sep, s, 0, 0);
    SplitFromKeepsVisible(sep, s, 0, 0);
    assert s[0..] == s;
    SplitFrom(sep, s, 0, 0)
  }

  /** No match of `sep` starts anywhere in `p`. */
  predicate NoMatchIn(sep: Separator, p: string) {
    forall i :: 0 <= i < |p| ==> MatchAt(sep, p, i).None?
  }

  /** No piece holds a match of `sep`. */
  predicate NoneHoldsMatch(sep: Separator, pieces: seq<string>) {
    forall j :: 0 <= j < |pieces| ==> NoMatchIn(sep, pieces[j])
  }

  /** The whitespace run from `j` reaches at least as far as any run of
      whitespace that starts at `j`. */
  lemma SpaceRunAtLeast(s: string, j: nat, m: nat)
    requires j <= m <= |s|
    requires forall k :: j <= k < m ==> IsSpace(s[k])
    ensures m <= SpaceRunEnd(s, j)
  {
  }

  /** A match inside a slice is a match in the whole string at the same
      place: the whitespace run in the whole string is at least as long, and
      the look-behind sees the same character. */
  lemma MatchInSlice(sep: Separator, s: string, a: nat, b: nat, i: nat)
    requires a <= b <= |s| && i < b - a
    ensures MatchAt(sep, s, a + i).None? ==> MatchAt(sep, s[a..b], i).None?
  {
    var p := s[a..b];
    var q := MatchAt(sep, p, i);
    assert s[a + i] == p[i];
    if q.Some? {
      var e := q.value;
      match sep
      case BlankLine =>
        assert forall k :: a + i + 1 <= k < a + e ==> s[k] == p[k - a];
        SpaceRunAtLeast(s, a + i + 1, a + e);
        assert s[a + e - 1] == p[e - 1];
      case SentenceEnd =>
        assert s[a + i - 1] == p[i - 1];
    }
  }

  /** A slice of a string without matches has none either. */
  lemma SliceHasNoMatch(sep: Separator, s: string, a: nat, b: nat)
    requires a <= b <= |s|
    requires forall k :: a <= k < b ==> MatchAt(sep, s, k).None?
    ensures NoMatchIn(sep, s[a..b])
  {
    forall i | 0 <= i < b - a ensures MatchAt(sep, s[a..b], i).None? {
      MatchInSlice(sep, s, a, b, i);
    }
  }

  /** Every piece is a stretch the scan passed over without finding a
      match, so no piece holds a match. */
  lemma {:induction false} SplitFromHasNoMatch(sep: Separator, s: string, start: nat, pos: nat)
    requires start <= pos <= |s|
    requires forall k :: start <= k < pos ==> MatchAt(sep, s, k).None?
    ensures NoneHoldsMatch(sep, SplitFrom(sep, s, start, pos))
    decreases |s| - pos
  {
    if pos == |s| {
      SliceHasNoMatch(sep, s, start, |s|);
      assert s[start..|s|] == s[start..];
    } else {
      match MatchAt(sep, s, pos)
      case Some(e) =>
        var rest := SplitFrom(sep, s, e, e);
        SliceHasNoMatch(sep, s, start, pos);
        SplitFromHasNoMatch(sep, s, e, e);
        var r := SplitFrom(sep, s, start, pos);
        assert r == [s[start..pos]] + rest;
        forall j | 0 <= j < |r| ensures NoMatchIn(sep, r[j]) {
          if j > 0 {
            assert r[j] == rest[j - 1];
          }
        }
      case None =>
        SplitFromHasNoMatch(sep, s, start, pos + 1);
    }
  }

  /** Stripping a piece and dropping blank ones adds no match. */
  lemma {:induction false} StripAndDropHasNoMatch(sep: Separator, pieces: seq<string>)
    requires NoneHoldsMatch(sep, pieces)
    ensures NoneHoldsMatch(sep, StripAndDropBlank(pieces))
    decreases |pieces|
  {
    if pieces != [] {
      var p := pieces[0];
      var a := LeadLength(p, Whitespace);
      var q := Strip(p, Whitespace);
      var rest := StripAndDropBlank(pieces[1..]);
      SliceHasNoMatch(sep, p, a, a + |q|);
      assert q == p[a..a + |q|];
      assert NoneHoldsMatch(sep, pieces[1..]) by {
        forall j | 0 <= j < |pieces| - 1 ensures NoMatchIn(sep, pieces[1..][j]) {
          assert pieces[1..][j] == pieces[j + 1];
        }
      }
      StripAndDropHasNoMatch(sep, pieces[1..]);
      if q != [] {
        var r := StripAndDropBlank(pieces);
        assert r == [q] + rest;
        forall j | 0 <= j < |r| ensures NoMatchIn(sep, r[j]) {
          if j > 0 {
            assert r[j] == rest[j - 1];
          } else {
            assert r[j] == q;
          }
        }
      }
    }
  }

  /** `[p.strip() for p in pieces if p.strip()]` */
  function StripAndDropBlank(pieces: seq<string>): (r: seq<string>)
    ensures |r| <= |pieces|
    ensures forall j :: 0 <= j < |r| ==> r[j] != [] && StrippedOf(r[j], Whitespace)
  {
    if pieces == [] then []
    else
      var p := Strip(pieces[0], Whitespace);
      var rest := StripAndDropBlank(pieces[1..]);
      if p == [] then rest else [p] + rest
  }

  /** `TextChunker._split_into_paragraphs` */
  function Paragraphs(text: string): (r: seq<string>)
    ensures forall j :: 0 <= j < |r| ==> r[j] != [] && StrippedOf(r[j], Whitespace)
  {
    StripAndDropBlank(RegexSplit(BlankLine, text))
  }

  /** `TextChunker._split_into_sentences` */
  function Sentences(text: string): (r: seq<string>)
    ensures forall j :: 0 <= j < |r| ==> r[j] != [] && StrippedOf(r[j], Whitespace)
  {
    StripAndDropBlank(RegexSplit(SentenceEnd, text))
  }

  /** No paragraph holds a blank line: the text is cut at every match of
      `\n\s*\n`. */
  lemma ParagraphsHaveNoBlankLine(text: string)
    ensures forall j :: 0 <= j < |Paragraphs(text)| ==> NoMatchIn(BlankLine, Paragraphs(text)[j])
    ensures forall j, i :: 0 <= j < |Paragraphs(text)| && 0 <= i < |Paragraphs(text)[j]| ==>
              MatchAt(BlankLine, Paragraphs(text)[j], i).None?
  {
    StripAndDropHasNoMatch(BlankLine, RegexSplit(BlankLine, text));
  }

  /** No sentence holds whitespace after `.`, `!` or `?`: the text is cut at
      every match of `(?<=[.!?])\s+`. */
  lemma SentencesHaveNoSentenceEnd(text: string)
    ensures forall j :: 0 <= j < |Sentences(text)| ==> NoMatchIn(SentenceEnd, Sentences(text)[j])
    ensures forall j, i :: 0 <= j < |Sentences(text)| && 0 <= i < |Sentences(text)[j]| ==>
              MatchAt(SentenceEnd, Sentences(text)[j], i).None?
  {
    StripAndDropHasNoMatch(SentenceEnd, RegexSplit(SentenceEnd, text));
  }

  /* ---------------- the splitters cut only at matches ---------------- */

  /** The scan passes over positions without a match: the split from `pos`
      is the split from the next match (or the end). */
  lemma {:induction false} SplitFromSkips(sep: Separator, s: string, start: nat, pos: nat, i: nat)
    requires start <= pos <= i <= |s|
    requires forall k :: pos <= k < i ==> MatchAt(sep, s, k).None?
    ensures SplitFrom(sep, s, start, pos) == SplitFrom(sep, s, start, i)
    decreases i - pos
  {
    if pos < i {
      SplitFromSkips(sep, s, start, pos + 1, i);
    }
  }

  /** `t` is `s` with its first `d` characters cut off. */
  predicate SuffixAt(s: string, t: string, d: nat) {
    |t| + d == |s| && forall j :: 0 <= j < |t| ==> t[j] == s[d + j]
  }

  /** The whitespace run from `j` is the same run in a suffix of `s`. */
  lemma {:induction false} SpaceRunInSuffix(s: string, t: string, d: nat, j: nat)
    requires SuffixAt(s, t, d) && d <= j <= |s|
    ensures SpaceRunEnd(s, j) == d + SpaceRunEnd(t, j - d)
    decreases |s| - j
  {
    if j < |s| {
      assert t[j - d] == s[j];
      if IsSpace(s[j]) {
        SpaceRunInSuffix(s, t, d, j + 1);
      }
    }
  }

  /** The last newline in a range is the same newline in a suffix of `s`. */
  lemma {:induction false} LastNewlineInSuffix(s: string, t: string, d: nat, lo: nat, hi: nat)
    requires SuffixAt(s, t, d) && d <= lo <= hi <= |s|
    ensures LastNewline(s, lo, hi) == ShiftBy(LastNewline(t, lo - d, hi - d), d)
    decreases hi - lo
  {
    if lo < hi {
      assert t[hi - 1 - d] == s[hi - 1];
      if s[hi - 1] != '\n' {
        LastNewlineInSuffix(s, t, d, lo, hi - 1);
      }
    }
  }

  /** A match end in a suffix, read as a position in the whole string. */
  function ShiftBy(m: Option<nat>, d: nat): (r: Option<nat>)
    ensures r.None? <==> m.None?
    ensures r.Some? ==> r.value == m.value + d
  {
    match m
    case None => None
    case Some(e) => Some(e + d)
  }

  /** After a whitespace character (or at the start), a suffix of `s` has
      the same matches as `s`, shifted by the length cut off. For the
      sentence pattern the look-behind at the cut sees whitespace, which is
      no sentence end. */
  lemma MatchInSuffix(sep: Separator, s: string, t: string, d: nat, k: nat)
    requires SuffixAt(s, t, d) && d <= k < |s|
    requires d == 0 || IsSpace(s[d - 1])
    ensures MatchAt(sep, s, k) == ShiftBy(MatchAt(sep, t, k - d), d)
  {
    match sep
    case BlankLine => BlankLineInSuffix(s, t, d, k);
    case SentenceEnd => SentenceEndInSuffix(s, t, d, k);
  }

  /** `MatchInSuffix` for `\n\s*\n`: the whitespace run and its last
      newline are the same in the suffix. */
  lemma BlankLineInSuffix(s: string, t: string, d: nat, k: nat)
    requires SuffixAt(s, t, d) && d <= k < |s|
    ensures MatchAt(BlankLine, s, k) == ShiftBy(MatchAt(BlankLine, t, k - d), d)
  {
    assert t[k - d] == s[k];
    if s[k] == '\n' {
      var r := SpaceRunEnd(s, k + 1);
      SpaceRunInSuffix(s, t, d, k + 1);
      LastNewlineInSuffix(s, t, d, k + 1, r);
      var ln := LastNewline(t, k + 1 - d, r - d);
      assert SpaceRunEnd(t, k - d + 1) == r - d;
      if ln.Some? {
        assert MatchAt(BlankLine, t, k - d) == Some(ln.value + 1);
        assert MatchAt(BlankLine, s, k) == Some(ln.value + d + 1);
      } else {
        assert MatchAt(BlankLine, t, k - d).None?;
      }
    }
  }

  /** `MatchInSuffix` for `(?<=[.!?])\s+`: inside the suffix the
      look-behind reads the same character; at its first position it reads
      nothing in the suffix and whitespace in the whole string. */
  lemma SentenceEndInSuffix(s: string, t: string, d: nat, k: nat)
    requires SuffixAt(s, t, d) && d <= k < |s|
    requires d == 0 || IsSpace(s[d - 1])
    ensures MatchAt(SentenceEnd, s, k) == ShiftBy(MatchAt(SentenceEnd, t, k - d), d)
  {
    assert t[k - d] == s[k];
    if d < k {
      assert t[k - d - 1] == s[k - 1];
    }
    SpaceRunInSuffix(s, t, d, k);
  }

  /** A table of where a match starting at each position of a string of
      length `n` ends, if one starts there. */
  predicate CutTable(ms: seq<Option<nat>>, n: nat) {
    |ms| == n && forall k :: 0 <= k < n && ms[k].Some? ==> k < ms[k].value <= n
  }

  /** The matches of `sep` at every position of `s`. */
  function Matches(sep: Separator, s: string): (ms: seq<Option<nat>>)
    ensures CutTable(ms, |s|)
    ensures forall k :: 0 <= k < |s| ==> ms[k] == MatchAt(sep, s, k)
  {
    seq(|s|, k requires 0 <= k < |s| => MatchAt(sep, s, k))
  }

  /** The scan of `SplitFrom`, reading the matches from a table, so that
      two scans can be compared without recomputing the matches. */
  function Scan(ms: seq<Option<nat>>, s: string, start: nat, pos: nat): (r: seq<string>)
    requires CutTable(ms, |s|) && start <= pos <= |s|
    decreases |s| - pos
  {
    if pos == |s| then [s[start..]]
    else
      match ms[pos]
      case Some(e) => [s[start..pos]] + Scan(ms, s, e, e)
      case None => Scan(ms, s, start, pos + 1)
  }

  /** `SplitFrom` is the scan over the table of its matches. */
  lemma {:induction false} SplitFromIsScan(sep: Separator, s: string, start: nat, pos: nat)
    requires start <= pos <= |s|
    ensures SplitFrom(sep, s, start, pos) == Scan(Matches(sep, s), s, start, pos)
    decreases |s| - pos
  {
    if pos < |s| {
      assert Matches(sep, s)[pos] == MatchAt(sep, s, pos);
      match MatchAt(sep, s, pos)
      case Some(e) => SplitFromIsScan(sep, s, e, e);
      case None => SplitFromIsScan(sep, s, start, pos + 1);
    }
  }

  /** Two scans over tables that agree after a shift by `d` give the same
      pieces. */
  lemma {:induction false} ScanInSuffix(ms: seq<Option<nat>>, mt: seq<Option<nat>>, s: string, t: string, d: nat, start: nat, pos: nat)
    requires CutTable(ms, |s|) && CutTable(mt, |t|) && |t| + d == |s|
    requires forall k :: d <= k < |s| ==> ms[k] == ShiftBy(mt[k - d], d)
    requires t == s[d..]
    requires d <= start <= pos <= |s|
    ensures Scan(ms, s, start, pos) == Scan(mt, t, start - d, pos - d)
    decreases |s| - pos
  {
    if pos == |s| {
      assert t[start - d..] == s[start..];
    } else {
      assert ms[pos] == ShiftBy(mt[pos - d], d);
      match mt[pos - d]
      case Some(e) =>
        ScanInSuffix(ms, mt, s, t, d, e + d, e + d);
        ScanCutsInSuffix(ms, mt, s, t, d, start, pos, e);
      case None =>
        ScanInSuffix(ms, mt, s, t, d, start, pos + 1);
        ScanSkipsInSuffix(ms, mt, s, t, d, start, pos);
    }
  }

  /** The cut step of `ScanInSuffix`: both scans cut at the same match. */
  lemma ScanCutsInSuffix(ms: seq<Option<nat>>, mt: seq<Option<nat>>, s: string, t: string, d: nat, start: nat, pos: nat, e: nat)
    requires CutTable(ms, |s|) && CutTable(mt, |t|) && |t| + d == |s| && t == s[d..]
    requires d <= start <= pos < |s|
    requires mt[pos - d] == Some(e) && ms[pos] == Some(e + d)
    requires Scan(ms, s, e + d, e + d) == Scan(mt, t, e, e)
    ensures Scan(ms, s, start, pos) == Scan(mt, t, start - d, pos - d)
  {
    assert t[start - d..pos - d] == s[start..pos];
  }

  /** The skip step of `ScanInSuffix`: neither scan cuts here. */
  lemma ScanSkipsInSuffix(ms: seq<Option<nat>>, mt: seq<Option<nat>>, s: string, t: string, d: nat, start: nat, pos: nat)
    requires CutTable(ms, |s|) && CutTable(mt, |t|) && |t| + d == |s|
    requires d <= start <= pos < |s|
    requires mt[pos - d].None? && ms[pos].None?
    requires Scan(ms, s, start, pos + 1) == Scan(mt, t, start - d, pos + 1 - d)
    ensures Scan(ms, s, start, pos) == Scan(mt, t, start - d, pos - d)
  {
  }

  /** The split of `s` from a position after whitespace is the split of the
      suffix from there. */
  lemma SplitFromInSuffix(sep: Separator, s: string, d: nat)
    requires d <= |s|
    requires d == 0 || IsSpace(s[d - 1])
    ensures SplitFrom(sep, s, d, d) == SplitFrom(sep, s[d..], 0, 0)
  {
    var t := s[d..];
    var ms := Matches(sep, s);
    var mt := Matches(sep, t);
    assert SuffixAt(s, t, d);
    forall k | d <= k < |s| ensures ms[k] == ShiftBy(mt[k - d], d) {
      MatchInSuffix(sep, s, t, d, k);
    }
    SplitFromIsScan(sep, s, d, d);
    SplitFromIsScan(sep, t, 0, 0);
    ScanInSuffix(ms, mt, s, t, d, d, d);
  }

  /** Text without a match is not cut: `re.split` gives it back whole. */
  lemma SplitWithoutMatch(sep: Separator, s: string)
    requires NoMatchIn(sep, s)
    ensures RegexSplit(sep, s) == [s]
  {
    SplitFromSkips(sep, s, 0, 0, |s|);
    assert s[0..] == s;
  }

  /** The first cut is at the first match: the piece before it, then the
      split of what follows the match. With `SplitWithoutMatch` this pins
      `re.split` on every input. */
  lemma SplitAtFirstMatch(sep: Separator, s: string, i: nat)
    requires i < |s| && MatchAt(sep, s, i).Some?
    requires forall k :: 0 <= k < i ==> MatchAt(sep, s, k).None?
    ensures RegexSplit(sep, s) == [s[..i]] + RegexSplit(sep, s[MatchAt(sep, s, i).value..])
  {
    var e := MatchAt(sep, s, i).value;
    SplitFromSkips(sep, s, 0, 0, i);
    assert s[0..i] == s[..i];
    SplitFromInSuffix(sep, s, e);
  }

  /** Stripping and dropping blank pieces distributes over concatenation. */
  lemma {:induction false} StripAndDropAppend(a: seq<string>, b: seq<string>)
    ensures StripAndDropBlank(a + b) == StripAndDropBlank(a) + StripAndDropBlank(b)
    decreases |a|
  {
    if a == [] {
      assert a + b == b;
    } else {
      var ab := a + b;
      assert ab[0] == a[0];
      assert ab[1..] == a[1..] + b;
      StripAndDropAppend(a[1..], b);
      var p := Strip(a[0], Whitespace);
      var ra := StripAndDropBlank(a[1..]);
      var rb := StripAndDropBlank(b);
      if p != [] {
        assert StripAndDropBlank(ab) == [p] + (ra + rb);
        assert [p] + (ra + rb) == ([p] + ra) + rb;
      }
    }
  }

  /** Text without a blank line is one paragraph (none if it is blank), and
      text without a sentence end is one sentence. */
  lemma PiecesWithoutMatch(sep: Separator, text: string)
    requires NoMatchIn(sep, text)
    ensures StripAndDropBlank(RegexSplit(sep, text)) ==
              if Strip(text, Whitespace) == [] then [] else [Strip(text, Whitespace)]
  {
    SplitWithoutMatch(sep, text);
    assert [text][1..] == [];
  }

  /** The paragraphs (or sentences) are the stripped text before the first
      match, unless blank, followed by those of the text after it. */
  lemma PiecesAtFirstMatch(sep: Separator, text: string, i: nat)
    requires i < |text| && MatchAt(sep, text, i).Some?
    requires forall k :: 0 <= k < i ==> MatchAt(sep, text, k).None?
    ensures var head := Strip(text[..i], Whitespace);
            StripAndDropBlank(RegexSplit(sep, text)) ==
              (if head == [] then [] else [head])
              + StripAndDropBlank(RegexSplit(sep, text[MatchAt(sep, text, i).value..]))
  {
    var e := MatchAt(sep, text, i).value;
    SplitAtFirstMatch(sep, text, i);
    StripAndDropAppend([text[..i]], RegexSplit(sep, text[e..]));
    assert [text[..i]][1..] == [];
  }

  /* ---------------- the splitters lose nothing but whitespace ---------------- */

  /** Cutting a whitespace gap out of a string keeps its visible characters. */
  lemma VisibleAcrossGap(s: string, start: nat, pos: nat, e: nat)
    requires start <= pos <= e <= |s|
    requires forall k :: pos <= k < e ==> IsSpace(s[k])
    ensures Visible(s[start..]) == Visible(s[start..pos]) + Visible(s[e..])
  {
    var t := s[start..];
    var gap := t[pos - start..e - start];
    SliceAround(t, pos - start, e - start);
    assert t[..pos - start] == s[start..pos];
    assert t[e - start..] == s[e..];
    assert Blank(gap) by {
      forall k | 0 <= k < |gap| ensures IsSpace(gap[k]) {
        assert gap[k] == s[pos + k];
      }
    }
    VisibleAppend(s[start..pos] + gap, s[e..]);
    VisibleAppend(s[start..pos], gap);
    VisibleOfBlank(gap);
  }

  /** The visible characters of the pieces, in order, are those of the text
      from `start`: the separators matched are whitespace only. */
  lemma {:induction false} SplitFromKeepsVisible(sep: Separator, s: string, start: nat, pos: nat)
    requires start <= pos <= |s|
    ensures Visible(Concat(SplitFrom(sep, s, start, pos))) == Visible(s[start..])
    decreases |s| - pos
  {
    if pos == |s| {
      var one: seq<string> := [s[start..]];
      assert one[1..] == [];
      assert Concat(one) == s[start..] + Concat<char>([]);
      assert Concat(one) == s[start..];
    } else {
      match MatchAt(sep, s, pos)
      case Some(e) =>
        var rest := SplitFrom(sep, s, e, e);
        assert ([s[start..pos]] + rest)[1..] == rest;
        SplitFromKeepsVisible(sep, s, e, e);
        VisibleAcrossGap(s, start, pos, e);
        VisibleAppend(s[start..pos], Concat(rest));
      case None =>
        SplitFromKeepsVisible(sep, s, start, pos + 1);
    }
  }

  lemma {:induction false} StripAndDropKeepsVisible(pieces: seq<string>)
    ensures Visible(Concat(StripAndDropBlank(pieces))) == Visible(Concat(pieces))
    decreases |pieces|
  {
    if pieces != [] {
      var p := Strip(pieces[0], Whitespace);
      var rest := StripAndDropBlank(pieces[1..]);
      StripAndDropKeepsVisible(pieces[1..]);
      VisibleOfStrip(pieces[0]);
      VisibleAppend(pieces[0], Concat(pieces[1..]));
      if p == [] {
        assert Visible(pieces[0]) == Visible(p);
      } else {
        assert ([p] + rest)[1..] == rest;
        VisibleAppend(p, Concat(rest));
      }
    }
  }

  /** Splitting into paragraphs or sentences keeps every non-whitespace
      character of the text, in order, and adds none. */
  lemma SplitKeepsVisible(sep: Separator, text: string)
    ensures Visible(Concat(StripAndDropBlank(RegexSplit(sep, text)))) == Visible(text)
  {
    StripAndDropKeepsVisible(RegexSplit(sep, text));
    SplitFromKeepsVisible(sep, text, 0, 0);
    assert text[0..] == text;
  }

  /* ---------------- blank text and only blank text splits into nothing ---------------- */

  lemma {:induction false} VisibleEmptyIsBlank(s: string)
    ensures Visible(s) == [] <==> Blank(s)
    decreases |s|
  {
    if s != [] {
      VisibleEmptyIsBlank(s[1..]);
      assert Blank(s) <==> IsSpace(s[0]) && Blank(s[1..]);
    }
  }

  /** Paragraphs (or sentences) come out empty exactly when the text is blank. */
  lemma SplitEmptyIffBlank(sep: Separator, text: string)
    ensures StripAndDropBlank(RegexSplit(sep, text)) == [] <==> Blank(text)
  {
    var r := StripAndDropBlank(RegexSplit(sep, text));
    SplitKeepsVisible(sep, text);
    VisibleEmptyIsBlank(text);
    if r != [] {
      assert r == [r[0]] + r[1..];
      VisibleAppend(r[0], Concat(r[1..]));
      VisibleEmptyIsBlank(r[0]);
      assert !IsSpace(r[0][0]);
      assert !Blank(r[0]);
    }
  }

  lemma ParagraphsEmptyIffBlank(text: string)
    ensures Paragraphs(text) == [] <==> Blank(text)
  {
    SplitEmptyIffBlank(BlankLine, text);
  }

  lemma SentencesEmptyIffBlank(text: string)
    ensures Sentences(text) == [] <==> Blank(text)
  {
    SplitEmptyIffBlank(SentenceEnd, text);
  }
}

/**
 The small string and list utilities: truncation, filename sanitising,
 whitespace cleaning, list chunking, source listing and key masking. The
 token estimate they also offer is `Text.EstimateTokens`.
 */
module Helpers {
  import opened Outcomes
  import opened Text

  /* ---------------- truncate_text ---------------- */

  const DefaultMaxLength := 100
  const Ellipsis := "..."

  /** `truncate_text`: text within the limit is returned as is; longer text
      keeps its first `max_length - len(suffix)` characters (a Python slice
      bound, so a negative one counts from the end) followed by the suffix. */
  function TruncateText(text: string, maxLength: int, suffix: string): (r: string)
    ensures |text| <= maxLength ==> r == text
    ensures |text| > maxLength ==>
              && IsSuffix(suffix, r)
              && r[..|r| - |suffix|] <= text
              && r[..|r| - |suffix|] == text[..PyBound(|text|, maxLength - |suffix|)]
    ensures |text| > maxLength >= |suffix| ==> |r| == maxLength && r == text[..maxLength - |suffix|] + suffix
  {
    if |text| <= maxLength then text
    else
      var kept := PySliceTo(text, maxLength - |suffix|);
      assert (kept + suffix)[..|kept|] == kept;
      kept + suffix
  }

  /** With a limit no shorter than the suffix the result fits the limit, so
      truncating again changes nothing. */
  lemma TruncateIdempotent(text: string, maxLength: int, suffix: string)
    requires maxLength >= |suffix|
    ensures |TruncateText(text, maxLength, suffix)| <= maxLength
    ensures TruncateText(TruncateText(text, maxLength, suffix), maxLength, suffix) == TruncateText(text, maxLength, suffix)
  {
  }

  /** A limit shorter than the suffix cannot be met: the result is always
      longer than the limit, and when the bound `max_length - len(suffix)`
      counts from the end of the text the result keeps all but
      `len(suffix) - max_length` of its characters, so a positive limit makes
      it longer than the text itself. */
  lemma TruncateBelowSuffixExceedsLimit(text: string, maxLength: int, suffix: string)
    requires |text| > maxLength && maxLength < |suffix|
    ensures |TruncateText(text, maxLength, suffix)| > maxLength
    ensures |suffix| - maxLength <= |text| ==> |TruncateText(text, maxLength, suffix)| == |text| + maxLength
  {
    var r := TruncateText(text, maxLength, suffix);
    assert |r| == PyBound(|text|, maxLength - |suffix|) + |suffix|;
  }

  /* ---------------- sanitize_filename ---------------- */

  /** The characters `sanitize_filename` replaces: `<>:"/\|?*`. */
  const InvalidChars: set<char> := {'<', '>', ':', '"', '/', '\\', '|', '?', '*'}

  /** The characters it then strips from both ends. */
  const EdgeChars := Chars({'.', ' '})

  /** Every invalid character becomes `_`; all others are kept. */
  function ReplaceInvalid(s: string): (r: string)
    ensures |r| == |s|
    ensures forall i :: 0 <= i < |s| ==> r[i] == (if s[i] in InvalidChars then '_' else s[i])
    ensures forall i :: 0 <= i < |r| ==> r[i] !in InvalidChars
  {
    assert '_' !in InvalidChars;
    seq(|s|, i requires 0 <= i < |s| => if s[i] in InvalidChars then '_' else s[i])
  }

  /** `sanitize_filename`: no invalid character is left, no dot or space at
      either end, and what remains is a slice of the filename with the
      invalid characters replaced. */
  function SanitizeFilename(filename: string): (r: string)
    ensures forall i :: 0 <= i < |r| ==> r[i] !in InvalidChars
    ensures StrippedOf(r, EdgeChars)
    ensures var replaced := ReplaceInvalid(filename);
            var a := LeadLength(replaced, EdgeChars);
            && a + |r| <= |filename|
            && r == replaced[a..a + |r|]
            && (forall i :: 0 <= i < a ==> In(replaced[i], EdgeChars))
            && (forall i :: a + |r| <= i < |replaced| ==> In(replaced[i], EdgeChars))
  {
    var replaced := ReplaceInvalid(filename);
    var r := Strip(replaced, EdgeChars);
    var a := LeadLength(replaced, EdgeChars);
    assert forall i :: 0 <= i < |r| ==> r[i] == replaced[a + i];
    r
  }

  /** A filename already sanitised is left as it is. */
  lemma SanitizeIdempotent(filename: string)
    ensures SanitizeFilename(SanitizeFilename(filename)) == SanitizeFilename(filename)
  {
    var r := SanitizeFilename(filename);
    assert ReplaceInvalid(r) == r;
    StripOfStripped(r, EdgeChars);
  }

  /* ---------------- clean_text ---------------- */

  /** Only single spaces separate words: every whitespace character is a
      space, and no two whitespace characters are adjacent. */
  predicate SingleSpaced(s: string) {
    && (forall i :: 0 <= i < |s| && IsSpace(s[i]) ==> s[i] == ' ')
    && (forall i :: 0 <= i < |s| - 1 ==> !(IsSpace(s[i]) && IsSpace(s[i + 1])))
  }

  /** `r` is `s` with every maximal whitespace run collapsed to one space:
      empty exactly when `s` is, beginning and ending with whitespace exactly
      when `s` does, single-spaced, and with the same visible characters and
      the same words (what `s.split()` gives). */
  predicate CollapsedFrom(r: string, s: string) {
    && (r == []) == (s == [])
    && (r != [] ==> (IsSpace(r[0]) <==> IsSpace(s[0])))
    && (r != [] ==> (IsSpace(r[|r| - 1]) <==> IsSpace(s[|s| - 1])))
    && SingleSpaced(r)
    && Visible(r) == Visible(s)
    && Words(r) == Words(s)
  }

  /** `re.sub(r'\s+', ' ', s)`: every maximal run of whitespace, including
      one at either end, becomes a single space. */
  function CollapseSpaces(s: string): (r: string)
    ensures CollapsedFrom(r, s)
    decreases |s|
  {
    if s == [] then []
    else if IsSpace(s[0]) then
      var t := s[1..][LeadLength(s[1..], Whitespace)..];
      var rest := CollapseSpaces(t);
      CollapseAfterRun(s, t, rest);
      [' '] + rest
    else
      var rest := CollapseSpaces(s[1..]);
      CollapseAfterVisible(s, rest);
      [s[0]] + rest
  }

  /** Putting a character in front keeps a string single-spaced when it is
      not whitespace, or is a space followed by a visible character. */
  lemma SingleSpacedCons(c: char, rest: string)
    requires SingleSpaced(rest)
    requires IsSpace(c) ==> c == ' ' && (rest == [] || !IsSpace(rest[0]))
    ensures SingleSpaced([c] + rest)
  {
    var r := [c] + rest;
    forall i | 1 <= i < |r| ensures r[i] == rest[i - 1] {
    }
  }

  /** The step for a whitespace run at the front: one space, then the
      collapse of what follows the run. */
  lemma CollapseAfterRun(s: string, t: string, rest: string)
    requires s != [] && IsSpace(s[0]) && t == s[1..][LeadLength(s[1..], Whitespace)..]
    requires CollapsedFrom(rest, t)
    ensures CollapsedFrom([' '] + rest, s)
  {
    CollapsedRun(s, t);
    var r := [' '] + rest;
    assert r[1..] == rest;
    SingleSpacedCons(' ', rest);
    assert r[|r| - 1] == if t == [] then ' ' else rest[|rest| - 1];
  }

  /** The step for a visible character at the front: it is kept, followed by
      the collapse of the rest. */
  lemma CollapseAfterVisible(s: string, rest: string)
    requires s != [] && !IsSpace(s[0])
    requires CollapsedFrom(rest, s[1..])
    ensures CollapsedFrom([s[0]] + rest, s)
  {
    assert s == [s[0]] + s[1..];
    WordsOfCons(s[0], s[1..]);
    WordsOfCons(s[0], rest);
    SingleSpacedCons(s[0], rest);
    var r := [s[0]] + rest;
    assert r[|r| - 1] == if rest == [] then s[0] else rest[|rest| - 1];
    assert s[|s| - 1] == if |s| == 1 then s[0] else s[1..][|s| - 2];
  }

  /** The whitespace run at the front of `s` contributes nothing visible and
      no word. */
  lemma CollapsedRun(s: string, t: string)
    requires s != [] && IsSpace(s[0]) && t == s[1..][LeadLength(s[1..], Whitespace)..]
    ensures Visible(s) == Visible(t)
    ensures Words(s) == Words(t)
    ensures t == [] ==> IsSpace(s[|s| - 1])
    ensures t != [] ==> t[|t| - 1] == s[|s| - 1] && !IsSpace(t[0])
  {
    var u := s[1..];
    var n := LeadLength(u, Whitespace);
    assert Visible(s) == Visible(u) && Words(s) == Words(u);
    WordsSkipBlank(u, n);
    VisibleSkipBlank(u, n);
    RunEnds(s, t);
  }

  /** What follows the run at the front of `s` is empty only when `s` ends in
      whitespace, and otherwise starts visibly and ends where `s` ends. */
  lemma RunEnds(s: string, t: string)
    requires s != [] && IsSpace(s[0]) && t == s[1..][LeadLength(s[1..], Whitespace)..]
    ensures t == [] ==> IsSpace(s[|s| - 1])
    ensures t != [] ==> t[|t| - 1] == s[|s| - 1] && !IsSpace(t[0])
  {
    var u := s[1..];
    var n := LeadLength(u, Whitespace);
    if t == [] {
      if |s| > 1 {
        assert s[|s| - 1] == u[|u| - 1];
      }
    } else {
      assert t[0] == u[n] && t[|t| - 1] == u[|u| - 1] == s[|s| - 1];
    }
  }

  /** Where the run of newlines that starts at `i` ends. */
  function NewlineRunEnd(s: string, i: nat): (e: nat)
    requires i <= |s|
    ensures i <= e <= |s|
    ensures forall k :: i <= k < e ==> s[k] == '\n'
    decreases |s| - i
  {
    if i < |s| && s[i] == '\n' then NewlineRunEnd(s, i + 1) else i
  }

  /** `re.sub(r'\n{3,}', '\n\n', s)`: every run of three or more newlines
      becomes two. */
  function CollapseNewlines(s: string): (r: string)
    ensures (forall i :: 0 <= i < |s| ==> s[i] != '\n') ==> r == s
    decreases |s|
  {
    if s == [] then []
    else if s[0] == '\n' then
      var e := NewlineRunEnd(s, 0);
      (if e >= 3 then "\n\n" else s[..e]) + CollapseNewlines(s[e..])
    else
      [s[0]] + CollapseNewlines(s[1..])
  }

  /** A single-spaced string has no newline left. */
  lemma SingleSpacedHasNoNewline(s: string)
    requires SingleSpaced(s)
    ensures forall i :: 0 <= i < |s| ==> s[i] != '\n'
  {
    forall i | 0 <= i < |s| ensures s[i] != '\n' {
      if s[i] == '\n' {
        assert IsSpace(s[i]);
      }
    }
  }

  /** A slice of a single-spaced string is single-spaced. */
  lemma SliceSingleSpaced(s: string, a: nat, b: nat)
    requires SingleSpaced(s) && a <= b <= |s|
    ensures SingleSpaced(s[a..b])
  {
    var t := s[a..b];
    forall i | 0 <= i < |t| - 1 ensures !(IsSpace(t[i]) && IsSpace(t[i + 1])) {
      assert t[i] == s[a + i] && t[i + 1] == s[a + i + 1];
    }
  }

  /** `clean_text`: whitespace runs collapse to one space, runs of three or
      more newlines to two, and the ends are stripped. The result has no
      whitespace at either end, only single spaces inside, and exactly the
      text's non-whitespace characters in order: it is the text's words
      joined by single spaces, `" ".join(text.split())`. */
  function CleanText(text: string): (r: string)
    ensures StrippedOf(r, Whitespace)
    ensures SingleSpaced(r)
    ensures Visible(r) == Visible(text)
    ensures r == JoinWith(Words(text), " ")
  {
    var spaced := CollapseSpaces(text);
    SingleSpacedHasNoNewline(spaced);
    var r := Strip(CollapseNewlines(spaced), Whitespace);
    CleanedKeepsShape(spaced);
    WordsOfStrip(spaced);
    SingleSpacedIsJoinedWords(r);
    r
  }

  /** A single-spaced string with no whitespace at either end is its words
      joined by single spaces. */
  lemma {:induction false} SingleSpacedIsJoinedWords(r: string)
    requires SingleSpaced(r) && StrippedOf(r, Whitespace)
    ensures r == JoinWith(Words(r), " ")
    decreases |r|
  {
    if r != [] {
      var n := WordLength(r);
      if n == |r| {
        assert r[..n] == r && r[n..] == [];
      } else {
        SplitAfterFirstWord(r, n);
        var u := r[n + 1..];
        WordsSplitAtSpace(r, n);
        SingleSpacedIsJoinedWords(u);
        JoinCons(r[..n], Words(u), " ");
        SplitAround(r, n);
      }
    }
  }

  /** In a single-spaced string with no whitespace at either end, each space
      (such as the one that ends the first word) is a lone ' ' between two
      visible characters, and what follows it is another such string. */
  lemma SplitAfterFirstWord(r: string, n: nat)
    requires SingleSpaced(r) && StrippedOf(r, Whitespace)
    requires n < |r| && IsSpace(r[n])
    ensures n + 1 < |r| && r[n] == ' ' && !IsSpace(r[n + 1])
    ensures SingleSpaced(r[n + 1..]) && StrippedOf(r[n + 1..], Whitespace)
  {
    SpaceBeforeVisible(r, n);
    SliceSingleSpaced(r, n + 1, |r|);
    var u := r[n + 1..];
    assert u[0] == r[n + 1] && u[|u| - 1] == r[|r| - 1];
  }

  /** In a single-spaced string that ends visibly, a space is a lone ' '
      with a visible character after it. */
  lemma SpaceBeforeVisible(r: string, n: nat)
    requires SingleSpaced(r) && n < |r| && IsSpace(r[n]) && !IsSpace(r[|r| - 1])
    ensures n + 1 < |r| && r[n] == ' ' && !IsSpace(r[n + 1])
  {
  }

  lemma CleanedKeepsShape(spaced: string)
    requires SingleSpaced(spaced)
    ensures SingleSpaced(Strip(spaced, Whitespace))
    ensures Visible(Strip(spaced, Whitespace)) == Visible(spaced)
  {
    var r := Strip(spaced, Whitespace);
    var a := LeadLength(spaced, Whitespace);
    SliceSingleSpaced(spaced, a, a + |r|);
    VisibleOfStrip(spaced);
  }

  /** Collapsing leaves a single-spaced string unchanged. */
  lemma {:induction false} CollapseOfSingleSpaced(s: string)
    requires SingleSpaced(s)
    ensures CollapseSpaces(s) == s
    decreases |s|
  {
    if s != [] {
      SliceSingleSpaced(s, 1, |s|);
      CollapseOfSingleSpaced(s[1..]);
      if IsSpace(s[0]) {
        assert s[1..] == [] || !IsSpace(s[1]);
        assert LeadLength(s[1..], Whitespace) == 0;
        assert s[1..][0..] == s[1..];
        assert CollapseSpaces(s) == [' '] + CollapseSpaces(s[1..]);
      } else {
        assert CollapseSpaces(s) == [s[0]] + CollapseSpaces(s[1..]);
      }
      HeadTail(s);
    }
  }

  /** Cleaning clean text changes nothing. */
  lemma CleanIdempotent(text: string)
    ensures CleanText(CleanText(text)) == CleanText(text)
  {
    var r := CleanText(text);
    CollapseOfSingleSpaced(r);
    SingleSpacedHasNoNewline(r);
    StripOfStripped(r, Whitespace);
  }

  /* ---------------- chunk_list ---------------- */

  /** `range(0, n, 0)` raises. */
  datatype ChunkError = ZeroChunkSize

  /** Consecutive pieces of `size` elements; the last holds what is left. */
  function Pieces<T>(lst: seq<T>, size: nat): (r: seq<seq<T>>)
    requires size > 0
    ensures Concat(r) == lst
    ensures forall j :: 0 <= j < |r| - 1 ==> |r[j]| == size
    ensures r != [] ==> 0 < |r[|r| - 1]| <= size
    decreases |lst|
  {
    if lst == [] then []
    else if |lst| <= size then
      assert [lst][1..] == [];
      [lst]
    else
      var rest := Pieces(lst[size..], size);
      assert ([lst[..size]] + rest)[1..] == rest;
      assert lst == lst[..size] + lst[size..];
      [lst[..size]] + rest
  }

  /** `chunk_list`: a zero size raises; a negative size gives no pieces (an
      empty range); otherwise the pieces concatenate back to the list, all
      but the last have `chunk_size` elements, and the last is non-empty. */
  function ChunkList<T>(lst: seq<T>, chunkSize: int): (r: Result<seq<seq<T>>, ChunkError>)
    ensures chunkSize == 0 <==> r.Failure?
    ensures chunkSize < 0 ==> r == Success([])
    ensures chunkSize > 0 ==>
              && r.Success?
              && Concat(r.value) == lst
              && (forall j :: 0 <= j < |r.value| - 1 ==> |r.value[j]| == chunkSize)
              && (r.value != [] ==> 0 < |r.value[|r.value| - 1]| <= chunkSize)
  {
    if chunkSize == 0 then Failure(ZeroChunkSize)
    else if chunkSize < 0 then Success([])
    else Success(Pieces(lst, chunkSize))
  }

  /** Chunk lists are the only split with those shapes: any pieces that
      concatenate to the list, are full except the last, and end non-empty
      are the chunk list's pieces. */
  lemma {:induction false} PiecesAreUnique<T>(lst: seq<T>, size: nat, other: seq<seq<T>>)
    requires size > 0
    requires Concat(other) == lst
    requires forall j :: 0 <= j < |other| - 1 ==> |other[j]| == size
    requires other != [] ==> 0 < |other[|other| - 1]| <= size
    ensures other == Pieces(lst, size)
    decreases |other|
  {
    if other == [] {
    } else if |other| == 1 {
      assert other[1..] == [];
      assert Concat(other) == other[0] + Concat<T>([]);
      assert lst == other[0] && 0 < |lst| <= size;
      assert other == [lst];
    } else {
      var rest := other[1..];
      assert Concat(other) == other[0] + Concat(rest);
      ConcatEndsWithLast(rest);
      assert |other[0]| == size && |lst| > size;
      assert lst[..size] == other[0];
      assert lst[size..] == Concat(rest);
      assert forall j :: 0 <= j < |rest| - 1 ==> |rest[j]| == size by {
        forall j | 0 <= j < |rest| - 1 ensures |rest[j]| == size {
          assert rest[j] == other[j + 1];
        }
      }
      assert rest[|rest| - 1] == other[|other| - 1];
      PiecesAreUnique(lst[size..], size, rest);
      assert Pieces(lst, size) == [lst[..size]] + Pieces(lst[size..], size);
      assert other == [other[0]] + rest;
    }
  }

  /** A list of pieces whose last piece is non-empty concatenates to a
      non-empty list. */
  lemma ConcatEndsWithLast<T>(ss: seq<seq<T>>)
    requires ss != [] && ss[|ss| - 1] != []
    ensures |Concat(ss)| >= |ss[|ss| - 1]| > 0
  {
    assert ss == ss[..|ss| - 1] + [ss[|ss| - 1]];
    ConcatAppend(ss[..|ss| - 1], ss[|ss| - 1]);
  }

  /* ---------------- format_sources_for_display ---------------- */

  const NoSources := "No sources available"
  const DefaultMaxSources := 3

  /** A source as the display reads it: the `source` and `score` entries,
      either of which may be missing. */
  datatype SourceRef = SourceRef(source: Option<string>, score: Option<real>)

  /** `name.split("/")[-1]`: the part after the last `/`, or the whole name
      when it has none. */
  function BaseName(name: string): (r: string)
    ensures IsSuffix(r, name)
    ensures forall i :: 0 <= i < |r| ==> r[i] != '/'
    ensures |r| < |name| ==> name[|name| - |r| - 1] == '/'
    decreases |name|
  {
    if name == [] || name[|name| - 1] == '/' then []
    else BaseName(name[..|name| - 1]) + [name[|name| - 1]]
  }

  /** The line for the `i`-th source (numbered from 1); `render` is the
      percentage rendering `{score:.0%}`. */
  function SourceLine(i: nat, s: SourceRef, render: real -> string): (line: string)
    ensures NatToString(i) + ". " <= line
    ensures line[|line| - 1] == ')'
  {
    var name := s.source.GetOr("Unknown");
    NatToString(i) + ". " + BaseName(name) + " (" + render(s.score.GetOr(0.0)) + ")"
  }

  /** The lines for the first `max_sources` sources (a Python slice bound). */
  function SourceLines(sources: seq<SourceRef>, maxSources: int, render: real -> string): (lines: seq<string>)
    ensures |lines| == PyBound(|sources|, maxSources)
    ensures 0 <= maxSources ==> |lines| <= maxSources
    ensures forall j :: 0 <= j < |lines| ==> lines[j] == SourceLine(j + 1, sources[j], render)
  {
    var shown := PySliceTo(sources, maxSources);
    seq(|shown|, j requires 0 <= j < |shown| => SourceLine(j + 1, shown[j], render))
  }

  /** `format_sources_for_display`: the fixed message for no sources,
      otherwise one line per shown source, numbered from 1, joined by
      newlines. */
  function FormatSourcesForDisplay(sources: seq<SourceRef>, maxSources: int, render: real -> string): (r: string)
    ensures sources == [] ==> r == NoSources
    ensures sources != [] ==> r == JoinWith(SourceLines(sources, maxSources, render), "\n")
  {
    if sources == [] then NoSources else JoinWith(SourceLines(sources, maxSources, render), "\n")
  }

  /** A list of sources starts with the first source's line. */
  lemma DisplayStartsWithFirstSource(sources: seq<SourceRef>, maxSources: int, render: real -> string)
    requires sources != [] && maxSources > 0
    ensures SourceLine(1, sources[0], render) <= FormatSourcesForDisplay(sources, maxSources, render)
  {
  }

  /* ---------------- mask_api_key ---------------- */

  const Mask := "***"
  const DefaultVisibleChars := 4

  /** `mask_api_key` as the source writes it: the mask, followed, for a key
      longer than `visible_chars`, by the Python slice `key[-visible_chars:]`
      (a suffix of the key), which for `visible_chars <= 0` is not the tail
      that was meant. */
  function MaskApiKeyAsWritten(key: string, visibleChars: int): (r: string)
    ensures Mask <= r
    ensures key == [] || |key| <= visibleChars ==> r == Mask
    ensures IsSuffix(r[|Mask|..], key)
  {
    if key == [] || |key| <= visibleChars then Mask else Mask + PySliceFrom(key, -visibleChars)
  }

  /** `mask_api_key` as evidently intended: the mask, followed, for a key
      longer than `visible_chars`, by its last `visible_chars` characters
      (none when that count is not positive). Never the whole key. */
  function MaskApiKey(key: string, visibleChars: int): (r: string)
    ensures Mask <= r
    ensures key == [] || |key| <= visibleChars ==> r == Mask
    ensures |key| > visibleChars > 0 ==> r == Mask + key[|key| - visibleChars..]
    ensures visibleChars <= 0 ==> r == Mask
    ensures key != [] ==> |r| - |Mask| < |key|
    ensures IsSuffix(r[|Mask|..], key)
  {
    if key == [] || |key| <= visibleChars || visibleChars <= 0 then Mask
    else Mask + key[|key| - visibleChars..]
  }

  /** For every positive count the source and the corrected masking agree. */
  lemma MaskAgrees(key: string, visibleChars: int)
    requires visibleChars > 0
    ensures MaskApiKeyAsWritten(key, visibleChars) == MaskApiKey(key, visibleChars)
  {
  }

  /** With `visible_chars <= 0` the source's bound `-visible_chars` is not
      negative, so `key[-visible_chars:]` drops the first `-visible_chars`
      characters instead of keeping the last ones: a count of 0 shows the
      entire key, and a negative count all of it but its first `|count|`
      characters. The corrected masking shows nothing of the key. */
  lemma MaskAsWrittenRevealsKey(key: string, visibleChars: int)
    requires key != [] && visibleChars <= 0
    ensures -visibleChars <= |key| ==> MaskApiKeyAsWritten(key, visibleChars) == Mask + key[-visibleChars..]
    ensures -visibleChars > |key| ==> MaskApiKeyAsWritten(key, visibleChars) == Mask
    ensures visibleChars == 0 ==> MaskApiKeyAsWritten(key, visibleChars) == Mask + key
    ensures MaskApiKey(key, visibleChars) == Mask
  {
  }
}

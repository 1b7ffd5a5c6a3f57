/**
 String vocabulary shared by the chunker, the retriever and the helpers:
 Python's notion of whitespace, `str.strip`, `str.join`, slice-bound
 normalisation, decimal rendering of indices and the four-characters-per-token
 estimate.
 */
module Text {

  /** Python's `str.isspace`, which is also what the regular-expression class
      `\s` matches on `str` patterns. */
  predicate IsSpace(c: char) {
    || ('\t' <= c <= '\r')
    || ('\U{1C}' <= c <= ' ')
    || c == '\U{85}' || c == '\U{A0}' || c == '\U{1680}'
    || ('\U{2000}' <= c <= '\U{200A}')
    || c == '\U{2028}' || c == '\U{2029}' || c == '\U{202F}' || c == '\U{205F}' || c == '\U{3000}'
  }

  /** The characters a strip removes: `strip()` removes whitespace, `strip(cs)`
      removes the characters of `cs`. */
  datatype CharClass = Whitespace | Chars(cs: set<char>)

  predicate In(c: char, cls: CharClass) {
    match cls
    case Whitespace => IsSpace(c)
    case Chars(cs) => c in cs
  }

  predicate AllIn(s: string, cls: CharClass) {
    forall i :: 0 <= i < |s| ==> In(s[i], cls)
  }

  /** True when a string is empty or holds only whitespace (`not s.strip()`). */
  predicate Blank(s: string) {
    AllIn(s, Whitespace)
  }

  /** No character of the class at either end. */
  predicate StrippedOf(s: string, cls: CharClass) {
    s == [] || (!In(s[0], cls) && !In(s[|s| - 1], cls))
  }

  predicate IsSuffix<T(==)>(a: seq<T>, b: seq<T>) {
    |a| <= |b| && b[|b| - |a|..] == a
  }

  /** How many leading characters of the class a strip removes. */
  function LeadLength(s: string, cls: CharClass): (n: nat)
    ensures n <= |s|
    ensures forall i :: 0 <= i < n ==> In(s[i], cls)
    ensures n < |s| ==> !In(s[n], cls)
    decreases |s|
  {
    if s != [] && In(s[0], cls) then 1 + LeadLength(s[1..], cls) else 0
  }

  /** How many trailing characters of the class a strip removes. */
  function TrailLength(s: string, cls: CharClass): (n: nat)
    ensures n <= |s|
    ensures forall i :: |s| - n <= i < |s| ==> In(s[i], cls)
    ensures n < |s| ==> !In(s[|s| - n - 1], cls)
    decreases |s|
  {
    if s != [] && In(s[|s| - 1], cls) then 1 + TrailLength(s[..|s| - 1], cls) else 0
  }

  /** Python's `s.strip()` (class `Whitespace`) and `s.strip(chars)`: the
      result is the slice between the first and the last character outside the
      class, and everything cut away belongs to the class. */
  function Strip(s: string, cls: CharClass): (r: string)
    ensures StrippedOf(r, cls)
    ensures var a := LeadLength(s, cls);
            && a + |r| <= |s| && r == s[a..a + |r|]
            && (forall i :: 0 <= i < a ==> In(s[i], cls))
            && (forall i :: a + |r| <= i < |s| ==> In(s[i], cls))
    ensures r == [] <==> AllIn(s, cls)
  {
    var a := LeadLength(s, cls);
    if a == |s| then []
    else
      var b := TrailLength(s, cls);
      assert b < |s| - a;
      s[a..|s| - b]
  }

  /** A string already free of the class at both ends is its own strip. */
  lemma StripOfStripped(s: string, cls: CharClass)
    requires StrippedOf(s, cls)
    ensures Strip(s, cls) == s
  {
    if s != [] {
      assert LeadLength(s, cls) == 0;
      assert TrailLength(s, cls) == 0;
    }
  }

  /** The non-whitespace characters of a string, in order. */
  function Visible(s: string): (r: string)
    ensures |r| <= |s|
    ensures forall i :: 0 <= i < |r| ==> !IsSpace(r[i])
  {
    if s == [] then []
    else if IsSpace(s[0]) then Visible(s[1..])
    else [s[0]] + Visible(s[1..])
  }

  lemma {:induction false} VisibleAppend(a: string, b: string)
    ensures Visible(a + b) == Visible(a) + Visible(b)
    decreases |a|
  {
    if a == [] {
      assert a + b == b;
    } else {
      assert (a + b)[1..] == a[1..] + b;
      VisibleAppend(a[1..], b);
    }
  }

  lemma {:induction false} VisibleOfBlank(s: string)
    requires Blank(s)
    ensures Visible(s) == []
    decreases |s|
  {
    if s != [] {
      VisibleOfBlank(s[1..]);
    }
  }

  lemma SliceAround<T>(s: seq<T>, a: nat, b: nat)
    requires a <= b <= |s|
    ensures s == s[..a] + s[a..b] + s[b..]
  {
  }

  /** Whitespace around a string adds nothing visible. */
  lemma VisibleOfPadded(lead: string, r: string, tail: string)
    requires Blank(lead) && Blank(tail)
    ensures Visible(lead + r + tail) == Visible(r)
  {
    VisibleAppend(lead + r, tail);
    VisibleAppend(lead, r);
    VisibleOfBlank(lead);
    VisibleOfBlank(tail);
  }

  /** Stripping whitespace only removes whitespace. */
  lemma VisibleOfStrip(s: string)
    ensures Visible(Strip(s, Whitespace)) == Visible(s)
  {
    var r := Strip(s, Whitespace);
    var a := LeadLength(s, Whitespace);
    var lead, tail := s[..a], s[a + |r|..];
    SliceAround(s, a, a + |r|);
    assert Blank(lead) by {
      forall i | 0 <= i < |lead| ensures IsSpace(lead[i]) {
        assert lead[i] == s[i];
      }
    }
    assert Blank(tail) by {
      forall i | 0 <= i < |tail| ensures IsSpace(tail[i]) {
        assert tail[i] == s[a + |r| + i];
      }
    }
    VisibleOfPadded(lead, r, tail);
  }

  /** Python's `sep.join(parts)`: nothing for no parts, otherwise the first
      part leads and the last part closes the result. */
  function JoinWith(parts: seq<string>, sep: string): (r: string)
    ensures parts == [] ==> r == []
    ensures |parts| > 0 ==> parts[0] <= r
  {
    if |parts| == 0 then []
    else if |parts| == 1 then parts[0]
    else JoinWith(parts[..|parts| - 1], sep) + sep + parts[|parts| - 1]
  }

  lemma JoinAppend(parts: seq<string>, x: string, sep: string)
    requires |parts| > 0
    ensures JoinWith(parts + [x], sep) == JoinWith(parts, sep) + sep + x
  {
    assert (parts + [x])[..|parts|] == parts;
  }

  /** Joining ends with the last part. */
  lemma JoinEndsWithLast(parts: seq<string>, sep: string)
    requires |parts| > 0
    ensures IsSuffix(parts[|parts| - 1], JoinWith(parts, sep))
  {
    var r, last := JoinWith(parts, sep), parts[|parts| - 1];
    if |parts| > 1 {
      assert r == JoinWith(parts[..|parts| - 1], sep) + sep + last;
      assert r[|r| - |last|..] == last;
    }
  }

  /** Joining is empty only when every part is empty and there is nothing to
      separate. */
  lemma {:induction false} JoinNonEmpty(parts: seq<string>, sep: string)
    requires |parts| > 0 && parts[|parts| - 1] != []
    ensures JoinWith(parts, sep) != []
  {
  }

  /** Concatenation of a sequence of sequences. */
  function Concat<T>(ss: seq<seq<T>>): seq<T>
  {
    if ss == [] then [] else ss[0] + Concat(ss[1..])
  }

  lemma {:induction false} ConcatAppend<T>(ss: seq<seq<T>>, x: seq<T>)
    ensures Concat(ss + [x]) == Concat(ss) + x
    decreases |ss|
  {
    if ss == [] {
      assert ss + [x] == [x];
    } else {
      assert (ss + [x])[1..] == ss[1..] + [x];
      ConcatAppend(ss[1..], x);
    }
  }

  lemma {:induction false} ConcatOfAppend<T>(a: seq<seq<T>>, b: seq<seq<T>>)
    ensures Concat(a + b) == Concat(a) + Concat(b)
    decreases |a|
  {
    if a == [] {
      assert a + b == b;
    } else {
      assert (a + b)[1..] == a[1..] + b;
      ConcatOfAppend(a[1..], b);
    }
  }

  /** Appending a part adds exactly its visible text to the joined parts. */
  lemma VisibleOfJoinAppend(parts: seq<string>, para: string)
    ensures Visible(JoinWith(parts + [para], " ")) == Visible(JoinWith(parts, " ")) + Visible(para)
  {
    if parts == [] {
      assert parts + [para] == [para];
      assert Visible(JoinWith(parts, " ")) == [];
    } else {
      var joined := JoinWith(parts, " ");
      JoinAppend(parts, para, " ");
      VisibleAppend(joined + " ", para);
      VisibleAppend(joined, " ");
      assert Visible(" ") == [];
      assert Visible(joined + " ") == Visible(joined);
    }
  }

  /** Joining with a single space adds nothing visible. */
  lemma {:induction false} VisibleOfSpaceJoin(parts: seq<string>)
    ensures Visible(JoinWith(parts, " ")) == Visible(Concat(parts))
    decreases |parts|
  {
    if |parts| == 1 {
      assert parts[1..] == [];
      assert Concat(parts) == parts[0] + Concat<char>([]) == parts[0];
    } else if |parts| > 1 {
      var init, last := parts[..|parts| - 1], parts[|parts| - 1];
      assert parts == init + [last];
      VisibleOfSpaceJoin(init);
      VisibleOfJoinAppend(init, last);
      ConcatAppend(init, last);
      VisibleAppend(Concat(init), last);
    }
  }

  /* ---------------- words ---------------- */

  /** Length of the run of non-whitespace characters at the front of `s`. */
  function WordLength(s: string): (n: nat)
    ensures n <= |s|
    ensures forall i :: 0 <= i < n ==> !IsSpace(s[i])
    ensures n < |s| ==> IsSpace(s[n])
    decreases |s|
  {
    if s != [] && !IsSpace(s[0]) then 1 + WordLength(s[1..]) else 0
  }

  /** The run length is the only one with those properties. */
  lemma WordLengthUnique(s: string, n: nat)
    requires n <= |s|
    requires forall i :: 0 <= i < n ==> !IsSpace(s[i])
    requires n < |s| ==> IsSpace(s[n])
    ensures WordLength(s) == n
  {
  }

  /** Python's `s.split()` without arguments: the maximal runs of
      non-whitespace characters, in order. */
  function Words(s: string): (ws: seq<string>)
    ensures forall j :: 0 <= j < |ws| ==> ws[j] != []
    ensures forall j, i :: 0 <= j < |ws| && 0 <= i < |ws[j]| ==> !IsSpace(ws[j][i])
    decreases |s|
  {
    if s == [] then []
    else if IsSpace(s[0]) then Words(s[1..])
    else
      var n := WordLength(s);
      [s[..n]] + Words(s[n..])
  }

  /** A string of non-whitespace characters is all visible. */
  lemma {:induction false} VisibleOfWord(w: string)
    requires forall i :: 0 <= i < |w| ==> !IsSpace(w[i])
    ensures Visible(w) == w
    decreases |w|
  {
    if w != [] {
      VisibleOfWord(w[1..]);
    }
  }

  /** The words, laid end to end, are exactly the visible characters. */
  lemma {:induction false} WordsConcatVisible(s: string)
    ensures Concat(Words(s)) == Visible(s)
    decreases |s|
  {
    if s != [] {
      if IsSpace(s[0]) {
        WordsConcatVisible(s[1..]);
      } else {
        var n := WordLength(s);
        var w, rest := s[..n], s[n..];
        assert ([w] + Words(rest))[1..] == Words(rest);
        WordsConcatVisible(rest);
        assert s == w + rest;
        VisibleAppend(w, rest);
        VisibleOfWord(w);
      }
    }
  }

  /** Leading whitespace does not change the words. */
  lemma {:induction false} WordsSkipBlank(s: string, k: nat)
    requires k <= |s|
    requires forall i :: 0 <= i < k ==> IsSpace(s[i])
    ensures Words(s) == Words(s[k..])
    decreases k
  {
    if k > 0 {
      WordsSkipBlank(s[1..], k - 1);
      assert s[1..][k - 1..] == s[k..];
    }
  }

  lemma {:induction false} VisibleSkipBlank(s: string, k: nat)
    requires k <= |s|
    requires forall i :: 0 <= i < k ==> IsSpace(s[i])
    ensures Visible(s) == Visible(s[k..])
    decreases k
  {
    if k > 0 {
      VisibleSkipBlank(s[1..], k - 1);
      assert s[1..][k - 1..] == s[k..];
    }
  }

  lemma TakeOneMore<T>(s: seq<T>, n: nat)
    requires n < |s|
    ensures s[..n + 1] == s[..n] + [s[n]]
  {
  }

  lemma SliceSplit<T>(s: seq<T>, a: nat, b: nat)
    requires a <= b <= |s|
    ensures s[a..] == s[a..b] + s[b..]
  {
  }

  lemma HeadTail<T>(s: seq<T>)
    requires s != []
    ensures s == [s[0]] + s[1..]
  {
  }

  lemma SplitAround<T>(s: seq<T>, n: nat)
    requires n < |s|
    ensures s == s[..n] + [s[n]] + s[n + 1..]
  {
    assert s == s[..n] + s[n..];
    assert s[n..] == [s[n]] + s[n + 1..];
  }

  /** A word that ends at a whitespace character is the first word; the rest
      are the words after that character. */
  lemma WordsSplitAtSpace(r: string, n: nat)
    requires r != [] && !IsSpace(r[0]) && n == WordLength(r) && n < |r|
    ensures Words(r) == [r[..n]] + Words(r[n + 1..])
    ensures n + 1 < |r| && !IsSpace(r[n + 1]) ==> |Words(r[n + 1..])| > 0
  {
    assert r[n..][1..] == r[n + 1..];
    if n + 1 < |r| && !IsSpace(r[n + 1]) {
      assert r[n + 1..][0] == r[n + 1];
    }
  }

  /** Trailing whitespace does not change the words. */
  lemma {:induction false} WordsDropBlank(y: string, z: string)
    requires Blank(z)
    ensures Words(y + z) == Words(y)
    decreases |y|
  {
    if y == [] {
      assert y + z == z;
      WordsSkipBlank(z, |z|);
      assert z[|z|..] == [];
    } else if IsSpace(y[0]) {
      assert (y + z)[1..] == y[1..] + z;
      WordsDropBlank(y[1..], z);
    } else {
      var n := WordLength(y);
      FirstWordBeforeBlank(y, z);
      WordsDropBlank(y[n..], z);
    }
  }

  /** Whitespace after a string that starts with a word leaves that word
      first. */
  lemma FirstWordBeforeBlank(y: string, z: string)
    requires Blank(z) && y != [] && !IsSpace(y[0])
    ensures var n := WordLength(y); Words(y + z) == [y[..n]] + Words(y[n..] + z)
  {
    var s, n := y + z, WordLength(y);
    assert forall i :: 0 <= i < n ==> s[i] == y[i];
    if n < |y| {
      assert s[n] == y[n];
    } else if z != [] {
      assert s[n] == z[0] && In(z[0], Whitespace);
    }
    WordLengthUnique(s, n);
    assert s[0] == y[0];
    assert Words(s) == [s[..n]] + Words(s[n..]);
    assert s[..n] == y[..n];
    assert s[n..] == y[n..] + z;
  }

  /** Stripping whitespace keeps the words. */
  lemma WordsOfStrip(s: string)
    ensures Words(Strip(s, Whitespace)) == Words(s)
  {
    var r := Strip(s, Whitespace);
    var a := LeadLength(s, Whitespace);
    var tail := s[a + |r|..];
    WordsSkipBlank(s, a);
    SliceSplit(s, a, a + |r|);
    assert Blank(tail) by {
      forall i | 0 <= i < |tail| ensures IsSpace(tail[i]) {
        assert tail[i] == s[a + |r| + i];
      }
    }
    WordsDropBlank(r, tail);
  }

  /** Putting a non-whitespace character in front of a string either starts a
      new word or lengthens the first one. */
  lemma WordsOfCons(c: char, x: string)
    requires !IsSpace(c)
    ensures x == [] || IsSpace(x[0]) ==> Words([c] + x) == [[c]] + Words(x)
    ensures x != [] && !IsSpace(x[0]) ==>
      |Words(x)| > 0 && Words([c] + x) == [[c] + Words(x)[0]] + Words(x)[1..]
  {
    var s := [c] + x;
    assert s[1..] == x;
    var m := WordLength(x);
    WordLengthUnique(s, m + 1);
    assert s[..m + 1] == [c] + x[..m];
    assert s[m + 1..] == x[m..];
  }

  /** Joining in front of a non-empty join. */
  lemma {:induction false} JoinCons(w: string, ws: seq<string>, sep: string)
    requires |ws| > 0
    ensures JoinWith([w] + ws, sep) == w + sep + JoinWith(ws, sep)
    decreases |ws|
  {
    var p := [w] + ws;
    if |ws| == 1 {
      assert p[..1] == [w];
    } else {
      var init := ws[..|ws| - 1];
      assert p[..|p| - 1] == [w] + init;
      JoinCons(w, init, sep);
    }
  }

  /** Python's normalisation of a slice bound against a length: a negative
      bound counts from the end, and the result is clamped to `[0, len]`. */
  function PyBound(len: nat, i: int): (r: nat)
    ensures r <= len
    ensures 0 <= i <= len ==> r == i
    ensures -(len as int) <= i < 0 ==> r as int == len as int + i
    ensures i > len ==> r == len
    ensures i < -(len as int) ==> r == 0
  {
    if i < 0 then (if len + i < 0 then 0 else len + i)
    else if i > len then len
    else i
  }

  /** Python's `s[i:]`. */
  function PySliceFrom<T(==)>(s: seq<T>, i: int): (r: seq<T>)
    ensures IsSuffix(r, s)
  {
    s[PyBound(|s|, i)..]
  }

  /** Python's `s[:j]`. */
  function PySliceTo<T>(s: seq<T>, j: int): (r: seq<T>)
    ensures r <= s
  {
    s[..PyBound(|s|, j)]
  }

  /** The four-characters-per-token estimate: `len(text) // 4`, i.e. the
      largest count whose four-character blocks fit in the text. */
  function EstimateTokens(text: string): (r: nat)
    ensures 4 * r <= |text| < 4 * r + 4
  {
    |text| / 4
  }

  /** The summed token estimates of a list of strings. */
  function TokenSum(parts: seq<string>): nat
  {
    if parts == [] then 0 else EstimateTokens(parts[0]) + TokenSum(parts[1..])
  }

  lemma {:induction false} TokenSumAppend(parts: seq<string>, x: string)
    ensures TokenSum(parts + [x]) == TokenSum(parts) + EstimateTokens(x)
    decreases |parts|
  {
    if parts == [] {
      assert parts + [x] == [x];
    } else {
      assert (parts + [x])[1..] == parts[1..] + [x];
      TokenSumAppend(parts[1..], x);
    }
  }

  /** Python's `str(n)` for a non-negative integer. */
  function NatToString(n: nat): (r: string)
    ensures |r| >= 1
    ensures n < 10 <==> |r| == 1
    ensures r[|r| - 1] == "0123456789"[n % 10]
    decreases n
  {
    if n < 10 then ["0123456789"[n]] else NatToString(n / 10) + ["0123456789"[n % 10]]
  }

  lemma DigitsDistinct(a: nat, b: nat)
    requires a < 10 && b < 10 && "0123456789"[a] == "0123456789"[b]
    ensures a == b
  {
  }

  /** Different numbers render differently. */
  lemma {:induction false} NatToStringInjective(a: nat, b: nat)
    requires NatToString(a) == NatToString(b)
    ensures a == b
    decreases a
  {
    var s := NatToString(a);
    DigitsDistinct(a % 10, b % 10);
    if a >= 10 {
      assert b >= 10;
      assert NatToString(a / 10) == s[..|s| - 1] == NatToString(b / 10);
      NatToStringInjective(a / 10, b / 10);
    }
  }
}

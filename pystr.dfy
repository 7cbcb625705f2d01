/** The Python built-ins on `str` and `list` that the scraper and the CSV
    routine rely on, with the behaviour CPython gives them on text:
    strip(), split(), split(sep), find(), slicing, upper(), endswith(),
    int(), str() of an integer, and list.index(). */
module PyStr {
  import opened Outcome
  import opened SeqLemmas

  /** str.isspace() of a single character. */
  predicate IsSpace(c: char) {
    c == ' ' || ('\t' <= c <= '\r') || ('\U{1C}' <= c <= '\U{1F}')
    || c == '\U{85}' || c == '\U{A0}' || c == '\U{1680}'
    || ('\U{2000}' <= c <= '\U{200A}') || c == '\U{2028}' || c == '\U{2029}'
    || c == '\U{202F}' || c == '\U{205F}' || c == '\U{3000}'
  }

  predicate NoSpace(s: string) {
    forall i :: 0 <= i < |s| ==> !IsSpace(s[i])
  }

  predicate AllSpace(s: string) {
    forall i :: 0 <= i < |s| ==> IsSpace(s[i])
  }

  // ---------------------------------------------------------------- strip()

  /** str.lstrip(): drops the leading whitespace. */
  function LStrip(s: string): (r: string)
    ensures |r| <= |s|
    ensures r == [] || !IsSpace(r[0])
  {
    if s != [] && IsSpace(s[0]) then LStrip(s[1..]) else s
  }

  /** str.rstrip(): drops the trailing whitespace. */
  function RStrip(s: string): (r: string)
    ensures |r| <= |s|
    ensures r == [] || !IsSpace(r[|r| - 1])
  {
    if s != [] && IsSpace(s[|s| - 1]) then RStrip(s[..|s| - 1]) else s
  }

  /** What lstrip() drops is whitespace and what it keeps is a suffix. */
  lemma {:induction false} LStripShape(s: string)
    ensures LStrip(s) == s[|s| - |LStrip(s)|..]
    ensures AllSpace(s[..|s| - |LStrip(s)|])
  {
    if s != [] && IsSpace(s[0]) {
      LStripShape(s[1..]);
      var k := |s| - |LStrip(s)|;
      assert s[1..][k - 1..] == s[k..];
      assert forall i :: 1 <= i < k ==> s[i] == s[1..][i - 1];
    }
  }

  /** What rstrip() drops is whitespace and what it keeps is a prefix. */
  lemma {:induction false} RStripShape(s: string)
    ensures RStrip(s) == s[..|RStrip(s)|]
    ensures AllSpace(s[|RStrip(s)|..])
  {
    if s != [] && IsSpace(s[|s| - 1]) {
      var init := s[..|s| - 1];
      RStripShape(init);
      var k := |RStrip(s)|;
      assert init[..k] == s[..k];
      assert forall i :: k <= i < |s| - 1 ==> s[i] == init[i];
    }
  }

  /** str.strip(): both lstrip() and rstrip(). */
  function Strip(s: string): (r: string)
    ensures |r| <= |s|
    ensures r == [] || (!IsSpace(r[0]) && !IsSpace(r[|r| - 1]))
  {
    RStripShape(LStrip(s));
    RStrip(LStrip(s))
  }

  /** `s` is whitespace, then strip()'s result, then whitespace. */
  lemma StripShape(s: string) returns (i: nat)
    ensures i + |Strip(s)| <= |s| && Strip(s) == s[i..i + |Strip(s)|]
    ensures AllSpace(s[..i]) && AllSpace(s[i + |Strip(s)|..])
  {
    var l := LStrip(s);
    var r := RStrip(l);
    LStripShape(s);
    RStripShape(l);
    i := |s| - |l|;
    assert s[i..] == l;
    assert r == l[..|r|] == s[i..i + |r|];
    assert s[i + |r|..] == l[|r|..];
  }

  lemma StripUnchanged(s: string)
    requires s != [] && !IsSpace(s[0]) && !IsSpace(s[|s| - 1])
    ensures Strip(s) == s
  {
  }

  // ----------------------------------------------------- split() on blanks

  /** Length of the run of non-whitespace characters that starts `s`. */
  function RunLength(s: string): (n: nat)
    ensures n <= |s| && NoSpace(s[..n])
    ensures n == |s| || IsSpace(s[n])
  {
    if s == [] || IsSpace(s[0]) then 0 else 1 + RunLength(s[1..])
  }

  /** str.split() with no separator: the maximal runs of non-whitespace
      characters of `s`, in order. */
  function Words(s: string): (r: seq<string>)
    ensures forall k :: 0 <= k < |r| ==> r[k] != [] && NoSpace(r[k])
    ensures r == [] <==> AllSpace(s)
    decreases |s|
  {
    if s == [] then []
    else if IsSpace(s[0]) then
      assert forall i :: 1 <= i < |s| ==> s[i] == s[1..][i - 1];
      Words(s[1..])
    else
      var n := RunLength(s);
      [s[..n]] + Words(s[n..])
  }

  lemma {:induction false} RunLengthOfToken(w: string)
    requires NoSpace(w)
    ensures RunLength(w) == |w|
  {
    if w != [] {
      RunLengthOfToken(w[1..]);
    }
  }

  /** A run of non-whitespace stops where it stopped before anything was appended. */
  lemma {:induction false} RunLengthAppend(s: string, t: string)
    requires RunLength(s) < |s| || t == [] || IsSpace(t[0])
    ensures RunLength(s + t) == RunLength(s)
  {
    if s == [] {
      assert s + t == t;
    } else if !IsSpace(s[0]) {
      assert (s + t)[1..] == s[1..] + t;
      RunLengthAppend(s[1..], t);
    }
  }

  /** A single token splits into itself. */
  lemma WordsOfToken(w: string)
    requires w != [] && NoSpace(w)
    ensures Words(w) == [w]
  {
    RunLengthOfToken(w);
    assert w[..|w|] == w;
    assert w[|w|..] == [];
  }

  lemma {:induction false} WordsSkipLeading(t: string, s: string)
    requires AllSpace(t)
    ensures Words(t + s) == Words(s)
  {
    if t == [] {
      assert t + s == s;
    } else {
      assert (t + s)[1..] == t[1..] + s;
      WordsSkipLeading(t[1..], s);
    }
  }

  lemma {:induction false} WordsSkipTrailing(s: string, t: string)
    requires AllSpace(t)
    ensures Words(s + t) == Words(s)
    decreases |s|
  {
    if s == [] {
      assert s + t == t;
    } else if IsSpace(s[0]) {
      assert (s + t)[1..] == s[1..] + t;
      WordsSkipTrailing(s[1..], t);
    } else {
      var n := RunLength(s);
      RunLengthAppend(s, t);
      assert (s + t)[..n] == s[..n];
      assert (s + t)[n..] == s[n..] + t;
      WordsSkipTrailing(s[n..], t);
    }
  }

  /** split() ignores the whitespace that strip() removes. */
  lemma WordsOfStrip(s: string)
    ensures Words(Strip(s)) == Words(s)
  {
    var r := Strip(s);
    var i := StripShape(s);
    var lead, trail := s[..i], s[i + |r|..];
    assert s == lead + (r + trail);
    WordsSkipLeading(lead, r + trail);
    WordsSkipTrailing(r, trail);
  }

  /** A text that strips down to one token splits into exactly that token. */
  lemma WordsOfOneToken(s: string)
    requires Strip(s) != [] && NoSpace(Strip(s))
    ensures Words(s) == [Strip(s)]
  {
    WordsOfStrip(s);
    WordsOfToken(Strip(s));
  }

  /** `gaps[0] + words[0] + gaps[1] + ... + words[n-1] + gaps[n]`. */
  function Interleave(words: seq<string>, gaps: seq<string>): string
    requires |gaps| == |words| + 1
  {
    if words == [] then gaps[0] else gaps[0] + words[0] + Interleave(words[1..], gaps[1..])
  }

  /** Widening the first gap widens the text at its front. */
  lemma InterleaveWiden(words: seq<string>, gaps: seq<string>, x: string)
    requires |gaps| == |words| + 1
    ensures Interleave(words, [x + gaps[0]] + gaps[1..]) == x + Interleave(words, gaps)
  {
    var g := [x + gaps[0]] + gaps[1..];
    assert g[1..] == gaps[1..];
  }

  /** One more word and gap at the end. */
  lemma {:induction false} InterleaveSnoc(words: seq<string>, gaps: seq<string>, w: string, g: string)
    requires |gaps| == |words| + 1
    ensures Interleave(words + [w], gaps + [g]) == Interleave(words, gaps) + w + g
  {
    var ws, gs := words + [w], gaps + [g];
    if words == [] {
      assert ws[1..] == [] && gs[1..] == [g];
    } else {
      assert ws[1..] == words[1..] + [w] && gs[1..] == gaps[1..] + [g];
      InterleaveSnoc(words[1..], gaps[1..], w, g);
    }
  }

  /** `s` is `words` laid out between whitespace gaps, the inner gaps non-empty. */
  predicate Spaced(s: string, words: seq<string>, gaps: seq<string>) {
    |gaps| == |words| + 1
    && (forall k :: 0 <= k < |gaps| ==> AllSpace(gaps[k]))
    && (forall k :: 0 < k < |gaps| - 1 ==> gaps[k] != [])
    && s == Interleave(words, gaps)
  }

  /** A leading whitespace character joins the first gap. */
  lemma SpacedLeading(c: char, s: string, words: seq<string>, gaps: seq<string>)
    requires IsSpace(c) && Spaced(s, words, gaps)
    ensures Spaced([c] + s, words, [[c] + gaps[0]] + gaps[1..])
  {
    var g := [[c] + gaps[0]] + gaps[1..];
    InterleaveWiden(words, gaps, [c]);
    assert forall k :: 1 <= k < |g| ==> g[k] == gaps[k];
  }

  /** A leading word gets an empty gap before it. */
  lemma SpacedWord(w: string, rest: string, words: seq<string>, gaps: seq<string>)
    requires Spaced(rest, words, gaps) && (words != [] ==> gaps[0] != [])
    ensures Spaced(w + rest, [w] + words, [[]] + gaps)
  {
    var ws, g := [w] + words, [[]] + gaps;
    assert ws[1..] == words && g[1..] == gaps;
    assert forall k :: 1 <= k < |g| ==> g[k] == gaps[k - 1];
  }

  /** split() gives the words of `s` in order: `s` is whitespace, the first
      word, whitespace, ..., the last word, whitespace, where every gap between
      two words is non-empty, so each word is a maximal run. */
  lemma {:induction false} WordsReconstruct(s: string) returns (gaps: seq<string>)
    ensures |gaps| == |Words(s)| + 1
    ensures forall k :: 0 <= k < |gaps| ==> AllSpace(gaps[k])
    ensures forall k :: 0 < k < |gaps| - 1 ==> gaps[k] != []
    ensures s == Interleave(Words(s), gaps)
    ensures s != [] && IsSpace(s[0]) ==> gaps[0] != []
    decreases |s|
  {
    if s == [] {
      gaps := [[]];
    } else if IsSpace(s[0]) {
      var g := WordsReconstruct(s[1..]);
      assert s == [s[0]] + s[1..];
      SpacedLeading(s[0], s[1..], Words(s), g);
      gaps := [[s[0]] + g[0]] + g[1..];
    } else {
      var n := RunLength(s);
      var rest := s[n..];
      var g := WordsReconstruct(rest);
      assert Words(s) == [s[..n]] + Words(rest);
      assert s == s[..n] + rest;
      if Words(rest) != [] {
        assert rest != [] && IsSpace(rest[0]);
      }
      SpacedWord(s[..n], rest, Words(rest), g);
      gaps := [[]] + g;
    }
  }

  /** The last word ends the text but for trailing whitespace, and is preceded
      by whitespace or by nothing: it is split()[-1]. */
  lemma LastWordSplit(s: string) returns (u: string, t: string)
    requires !AllSpace(s)
    ensures var w := Words(s);
            s == u + w[|w| - 1] + t && AllSpace(t) && (u == [] || IsSpace(u[|u| - 1]))
  {
    var w := Words(s);
    var gaps := WordsReconstruct(s);
    var n := |w|;
    assert w == w[..n - 1] + [w[n - 1]];
    assert gaps == gaps[..n] + [gaps[n]];
    InterleaveSnoc(w[..n - 1], gaps[..n], w[n - 1], gaps[n]);
    u, t := Interleave(w[..n - 1], gaps[..n]), gaps[n];
    if n == 1 {
      assert u == gaps[0];
    } else {
      var w', g' := w[..n - 1], gaps[..n];
      assert w' == w'[..n - 2] + [w'[n - 2]];
      assert g' == g'[..n - 1] + [g'[n - 1]];
      InterleaveSnoc(w'[..n - 2], g'[..n - 1], w'[n - 2], g'[n - 1]);
      assert g'[n - 1] == gaps[n - 1] && gaps[n - 1] != [];
    }
  }

  // -------------------------------------------------------- split(sep)

  /** str.split(sep) for a one-character separator: the pieces between the
      occurrences of `sep`, in order; the empty string splits into one empty piece. */
  function SplitOn(s: string, sep: char): (r: seq<string>)
    ensures |r| >= 1
    ensures forall k :: 0 <= k < |r| ==> sep !in r[k]
  {
    if s == [] then [[]]
    else
      var p := SplitOn(s[..|s| - 1], sep);
      if s[|s| - 1] == sep then p + [[]]
      else p[..|p| - 1] + [p[|p| - 1] + [s[|s| - 1]]]
  }

  /** sep.join(parts). */
  function JoinWith(parts: seq<string>, sep: char): string
  {
    if parts == [] then []
    else if |parts| == 1 then parts[0]
    else JoinWith(parts[..|parts| - 1], sep) + [sep] + parts[|parts| - 1]
  }

  lemma JoinExtendLast(p: seq<string>, x: string, sep: char)
    requires |p| >= 1
    ensures JoinWith(p[..|p| - 1] + [p[|p| - 1] + x], sep) == JoinWith(p, sep) + x
  {
    var q := p[..|p| - 1] + [p[|p| - 1] + x];
    if |p| > 1 {
      assert q[..|q| - 1] == p[..|p| - 1];
    }
  }

  /** Joining the pieces back with the separator gives the original text. */
  lemma {:induction false} JoinSplit(s: string, sep: char)
    ensures JoinWith(SplitOn(s, sep), sep) == s
  {
    if s != [] {
      var init, c := s[..|s| - 1], s[|s| - 1];
      assert s == init + [c];
      JoinSplit(init, sep);
      var p := SplitOn(init, sep);
      if c == sep {
        assert (p + [[]])[..|p|] == p;
      } else {
        JoinExtendLast(p, [c], sep);
      }
    }
  }

  /** One more character that is not the separator extends the last piece. */
  lemma SplitSnoc(s: string, c: char, sep: char)
    requires c != sep
    ensures var p := SplitOn(s, sep);
            SplitOn(s + [c], sep) == p[..|p| - 1] + [p[|p| - 1] + [c]]
  {
    assert (s + [c])[..|s|] == s;
  }

  /** Appending text without a separator extends the last piece. */
  lemma {:induction false} SplitAppendPlain(y: string, w: string, sep: char)
    requires sep !in w
    ensures var p := SplitOn(y, sep);
            SplitOn(y + w, sep) == p[..|p| - 1] + [p[|p| - 1] + w]
    decreases |w|
  {
    var p := SplitOn(y, sep);
    if w == [] {
      assert y + w == y;
      assert p[|p| - 1] + w == p[|p| - 1];
      assert p[..|p| - 1] + [p[|p| - 1]] == p;
    } else {
      var w', c := w[..|w| - 1], w[|w| - 1];
      assert w == w' + [c];
      assert sep !in w' && c != sep by {
        assert forall i :: 0 <= i < |w'| ==> w'[i] == w[i];
        assert c == w[|w| - 1];
      }
      SplitAppendPlain(y, w', sep);
      assert y + w == (y + w') + [c];
      SplitSnoc(y + w', c, sep);
      ExtendLast(p[..|p| - 1], p[|p| - 1] + w', c);
      assert p[|p| - 1] + w' + [c] == p[|p| - 1] + w;
    }
  }

  lemma SplitNoSep(w: string, sep: char)
    requires sep !in w
    ensures SplitOn(w, sep) == [w]
  {
    SplitAppendPlain([], w, sep);
    assert [] + w == w;
  }

  /** Splitting a join of separator-free pieces gives the pieces back. */
  lemma {:induction false} SplitJoin(parts: seq<string>, sep: char)
    requires |parts| >= 1
    requires forall k :: 0 <= k < |parts| ==> sep !in parts[k]
    ensures SplitOn(JoinWith(parts, sep), sep) == parts
  {
    if |parts| == 1 {
      SplitNoSep(parts[0], sep);
    } else {
      var init, w := parts[..|parts| - 1], parts[|parts| - 1];
      SplitJoin(init, sep);
      var x := JoinWith(init, sep);
      var y := x + [sep];
      assert y[..|y| - 1] == x;
      assert SplitOn(y, sep) == init + [[]];
      assert JoinWith(parts, sep) == y + w;
      SplitAppendPlain(y, w, sep);
      assert (init + [[]])[..|init|] == init;
      assert [] + w == w;
      assert parts == init + [w];
    }
  }

  // ------------------------------------------------------- find(), slices

  /** str.find(c): the first index of `c` in `s`, or -1. */
  function Find(s: string, c: char): (r: int)
    ensures -1 <= r < |s|
    ensures r == -1 <==> c !in s
    ensures 0 <= r ==> s[r] == c && c !in s[..r]
  {
    if s == [] then -1
    else if s[0] == c then 0
    else
      var k := Find(s[1..], c);
      assert s == [s[0]] + s[1..];
      if k == -1 then -1
      else
        assert s[..k + 1] == [s[0]] + s[1..][..k];
        k + 1
  }

  /** The position a Python slice bound `i` stands for in a sequence of length `n`:
      negative bounds count from the end, and both ends are clamped. */
  function SliceBound(i: int, n: nat): (b: nat)
    ensures b <= n
    ensures 0 <= i <= n ==> b == i
  {
    if i < 0 then (if i + n < 0 then 0 else i + n)
    else if i > n then n
    else i
  }

  /** s[i:j] in Python. */
  function Slice(s: string, i: int, j: int): string
  {
    var a, b := SliceBound(i, |s|), SliceBound(j, |s|);
    if a < b then s[a..b] else []
  }

  // ------------------------------------------------- upper(), endswith()

  function UpperChar(c: char): char {
    if 'a' <= c <= 'z' then (c as int - 'a' as int + 'A' as int) as char else c
  }

  /** str.upper(), on the ASCII letters. */
  function Upper(s: string): string {
    seq(|s|, i requires 0 <= i < |s| => UpperChar(s[i]))
  }

  /** str.endswith(suffix). */
  predicate EndsWith(s: string, suffix: string) {
    |suffix| <= |s| && s[|s| - |suffix|..] == suffix
  }

  // ----------------------------------------------------- int() and str()

  predicate IsDigit(c: char) {
    '0' <= c <= '9'
  }

  predicate IsDigits(s: string) {
    s != [] && forall i :: 0 <= i < |s| ==> IsDigit(s[i])
  }

  /** The value of a string of decimal digits, most significant first. */
  function DigitsValue(s: string): nat
    requires forall i :: 0 <= i < |s| ==> IsDigit(s[i])
  {
    if s == [] then 0
    else
      assert IsDigit(s[|s| - 1]);
      DigitsValue(s[..|s| - 1]) * 10 + (s[|s| - 1] as int - '0' as int)
  }

  function DigitChar(d: nat): (c: char)
    requires d < 10
    ensures IsDigit(c) && c as int - '0' as int == d
  {
    ('0' as int + d) as char
  }

  /** The decimal digits of a natural number, without leading zeros. */
  function NatStr(n: nat): (s: string)
    ensures IsDigits(s)
  {
    if n < 10 then [DigitChar(n)] else NatStr(n / 10) + [DigitChar(n % 10)]
  }

  /** str(n) for a Python int. */
  function Str(n: int): string {
    if n < 0 then "-" + NatStr(-n) else NatStr(n)
  }

  /** U+001C..U+001F: str.isspace() accepts them, but int() does not skip them. */
  predicate IsInfoSeparator(c: char) {
    '\U{1C}' <= c <= '\U{1F}'
  }

  /** int(s) for a Python str: surrounding whitespace, an optional sign, then
      one or more decimal digits; anything else is a ValueError (None here).
      The whitespace int() skips is that of str.isspace() without the four
      information separators, which it rejects wherever they stand. */
  function ParseInt(s: string): Option<int> {
    var t := Strip(s);
    if exists i :: 0 <= i < |s| && IsInfoSeparator(s[i]) then None
    else if t != [] && (t[0] == '-' || t[0] == '+') then
      if IsDigits(t[1..]) then
        var v: int := DigitsValue(t[1..]);
        Some(if t[0] == '-' then -v else v)
      else None
    else if IsDigits(t) then Some(DigitsValue(t))
    else None
  }

  /** An information separator anywhere makes int() fail, though strip() would drop it. */
  lemma InfoSeparatorRejected(s: string, i: nat)
    requires i < |s| && IsInfoSeparator(s[i])
    ensures IsSpace(s[i]) && ParseInt(s).None?
  {
  }

  lemma {:induction false} NatStrValue(n: nat)
    ensures DigitsValue(NatStr(n)) == n
  {
    if n >= 10 {
      NatStrValue(n / 10);
      var s := NatStr(n);
      assert s[..|s| - 1] == NatStr(n / 10);
    }
  }

  /** int(str(n)) == n. */
  lemma ParseStr(n: int)
    ensures ParseInt(Str(n)) == Some(n)
  {
    var s := Str(n);
    var d := if n < 0 then -n else n;
    NatStrValue(d);
    StripUnchanged(s);
    assert forall i :: 0 <= i < |s| ==> s[i] == '-' || IsDigit(s[i]);
    if n < 0 {
      assert s[1..] == NatStr(d);
    }
  }

  /** No str() of an integer upper-cases to a word: it starts with '-' or a digit. */
  lemma StrFirstChar(n: int)
    ensures Str(n) != [] && (Str(n)[0] == '-' || IsDigit(Str(n)[0]))
    ensures Upper(Str(n)) != [] && Upper(Str(n))[0] == Str(n)[0]
  {
  }

  // ---------------------------------------------------------- list.index

  /** list.index(x): the first position of `x`; None where Python raises ValueError. */
  function IndexOf<T(==)>(xs: seq<T>, x: T): (r: Option<nat>)
    ensures r.None? <==> x !in xs
    ensures r.Some? ==> r.value < |xs| && xs[r.value] == x && x !in xs[..r.value]
  {
    if xs == [] then None
    else if xs[0] == x then Some(0)
    else
      var k := IndexOf(xs[1..], x);
      assert xs == [xs[0]] + xs[1..];
      match k
      case None => None
      case Some(j) =>
        assert xs[..j + 1] == [xs[0]] + xs[1..][..j];
        Some(j + 1)
  }
}

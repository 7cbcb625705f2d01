/** What the scraper reads off the option's front page before it fans out:
    the bracketed year window in the `lbl_pesq` label, the list of years the
    year selector stands for, and the `btn_sopt` sub-option buttons kept for
    a category (main.py:49-51, main.py:101-103, main.py:110-112). */
module Discovery {
  import opened Outcome
  import opened PyStr

  /** The year window `[start-end]` announced by the label. */
  datatype Window = Window(start: int, end: int)

  /** A `btn_sopt` button: its `value` attribute (None when the tag has none)
      and its text. */
  datatype Button = Button(value: Option<string>, text: string)

  /** The selector word that asks for every year of the window. */
  const AllYearsWord := "TUDO"

  // ------------------------------------------------------------ year window

  /** The text strictly between the first '[' and the first ']' of the label text,
      with Python's slice rules when either is missing. */
  function BracketText(text: string): string {
    Slice(text, Find(text, '[') + 1, Find(text, ']'))
  }

  /** `start_year, end_year = map(int, year_range.split('-'))`: the bracketed
      text must split on '-' into exactly two integers, else ValueError. */
  function ParseWindow(text: string): (r: Result<Window>)
    ensures r.Err? ==> r.fault == ValueError
    ensures var parts := SplitOn(BracketText(text), '-');
            r.Ok? <==> |parts| == 2 && ParseInt(parts[0]).Some? && ParseInt(parts[1]).Some?
    ensures var parts := SplitOn(BracketText(text), '-');
            r.Ok? ==> ParseInt(parts[0]) == Some(r.value.start) && ParseInt(parts[1]) == Some(r.value.end)
  {
    var parts := SplitOn(BracketText(text), '-');
    if |parts| != 2 then Err(ValueError)
    else
      match (ParseInt(parts[0]), ParseInt(parts[1]))
      case (Some(a), Some(b)) => Ok(Window(a, b))
      case _ => Err(ValueError)
  }

  /** The first occurrence of `c` in `p + [c] + rest`, when `p` lacks it, is right after `p`. */
  lemma {:induction false} FindAfter(p: string, c: char, rest: string)
    requires c !in p
    ensures Find(p + [c] + rest, c) == |p|
  {
    if p != [] {
      var s := p + [c] + rest;
      assert s[0] == p[0] && s[1..] == p[1..] + [c] + rest;
      FindAfter(p[1..], c, rest);
    }
  }

  /** The bracket text of `prefix[mid]suffix` is `mid` when neither `prefix`
      nor `mid` holds a bracket that would be found first. */
  lemma BracketTextOf(prefix: string, mid: string, suffix: string)
    requires '[' !in prefix && ']' !in prefix && ']' !in mid
    ensures BracketText(prefix + "[" + mid + "]" + suffix) == mid
  {
    var text := prefix + "[" + mid + "]" + suffix;
    var before := prefix + "[" + mid;
    assert Find(text, '[') == |prefix| by {
      assert text == prefix + ['['] + (mid + "]" + suffix);
      FindAfter(prefix, '[', mid + "]" + suffix);
    }
    assert Find(text, ']') == |before| by {
      assert text == before + [']'] + suffix;
      assert ']' !in before by {
        assert forall i :: 0 <= i < |before| ==> before[i] in prefix || before[i] == '[' || before[i] in mid;
      }
      FindAfter(before, ']', suffix);
    }
    assert text[|prefix| + 1..|before|] == mid;
  }

  lemma NatStrHasNoMarks(n: nat)
    ensures '[' !in NatStr(n) && ']' !in NatStr(n) && '-' !in NatStr(n)
  {
    var s := NatStr(n);
    assert forall i :: 0 <= i < |s| ==> IsDigit(s[i]);
  }

  /** A label carrying `[a-b]` after text without brackets yields the window a..b. */
  lemma WindowRoundTrip(prefix: string, a: nat, b: nat, suffix: string)
    requires '[' !in prefix && ']' !in prefix
    ensures ParseWindow(prefix + "[" + Str(a) + "-" + Str(b) + "]" + suffix) == Ok(Window(a, b))
  {
    var sa, sb := Str(a), Str(b);
    NatStrHasNoMarks(a);
    NatStrHasNoMarks(b);
    var mid := sa + "-" + sb;
    BracketTextOf(prefix, mid, suffix);
    assert prefix + "[" + Str(a) + "-" + Str(b) + "]" + suffix == prefix + "[" + mid + "]" + suffix;
    assert JoinWith([sa, sb], '-') == mid;
    SplitJoin([sa, sb], '-');
    ParseStr(a);
    ParseStr(b);
  }

  // ---------------------------------------------------------- year selector

  /** `year_selected.upper() == 'TUDO'`. */
  predicate IsAllYears(selector: string) {
    Upper(selector) == AllYearsWord
  }

  /** Python's range(start, stop). */
  function Range(start: int, stop: int): (r: seq<int>)
    ensures |r| == if start <= stop then stop - start else 0
    ensures forall k :: 0 <= k < |r| ==> r[k] == start + k
    decreases stop - start
  {
    if start >= stop then [] else [start] + Range(start + 1, stop)
  }

  /** `available_years`: the whole window for the all-years word, otherwise the
      one year the selector spells, however far outside the window it lies. */
  function AvailableYears(selector: string, w: Window): Result<seq<int>>
  {
    if IsAllYears(selector) then Ok(Range(w.start, w.end + 1))
    else
      match ParseInt(selector)
      case Some(y) => Ok([y])
      case None => Err(ValueError)
  }

  /** The all-years word is "tudo" in any mix of upper and lower case. */
  lemma AllYearsWordAnyCase(s: string)
    ensures IsAllYears(s) <==>
              |s| == 4 && (s[0] == 'T' || s[0] == 't') && (s[1] == 'U' || s[1] == 'u')
              && (s[2] == 'D' || s[2] == 'd') && (s[3] == 'O' || s[3] == 'o')
  {
    if IsAllYears(s) {
      assert Upper(s)[0] == 'T' && Upper(s)[1] == 'U' && Upper(s)[2] == 'D' && Upper(s)[3] == 'O';
    }
    if |s| == 4 && (s[0] == 'T' || s[0] == 't') && (s[1] == 'U' || s[1] == 'u')
       && (s[2] == 'D' || s[2] == 'd') && (s[3] == 'O' || s[3] == 'o') {
      assert Upper(s) == ['T', 'U', 'D', 'O'];
    }
  }

  /** For the all-years word, the years are exactly start..end, ascending. */
  lemma AllYearsAreTheWindow(selector: string, w: Window)
    requires IsAllYears(selector)
    ensures AvailableYears(selector, w).Ok?
    ensures var ys := AvailableYears(selector, w).value;
            (forall y :: y in ys <==> w.start <= y <= w.end)
            && (forall i, j :: 0 <= i < j < |ys| ==> ys[i] < ys[j])
            && |ys| == (if w.start <= w.end then w.end - w.start + 1 else 0)
  {
    var ys := AvailableYears(selector, w).value;
    forall y | w.start <= y <= w.end ensures y in ys {
      assert ys[y - w.start] == y;
    }
  }

  /** Any year written out as a number is taken as it is, whatever the window. */
  lemma SingleYearUnchecked(n: int, w: Window)
    ensures AvailableYears(Str(n), w) == Ok([n])
  {
    StrFirstChar(n);
    ParseStr(n);
    assert !IsAllYears(Str(n));
  }

  /** The empty selector is not the all-years word: int('') raises ValueError. */
  lemma EmptySelectorFails(w: Window)
    ensures AvailableYears("", w) == Err(ValueError)
  {
    assert Strip("") == "";
  }

  // -------------------------------------------------------- sub-option filter

  /** The button carries a value that ends with `suffix`. */
  predicate Matches(b: Button, suffix: string) {
    b.value.Some? && EndsWith(b.value.value, suffix)
  }

  /** `[so for so in buttons if so['value'].endswith(suffix)]`; a button
      without a value raises KeyError. */
  function KeepSuffix(buttons: seq<Button>, suffix: string): (r: Result<seq<Button>>)
    ensures r.Err? ==> r.fault == KeyError
  {
    if buttons == [] then Ok([])
    else
      var b := buttons[|buttons| - 1];
      match KeepSuffix(buttons[..|buttons| - 1], suffix)
      case Err(e) => Err(e)
      case Ok(kept) =>
        match b.value
        case None => Err(KeyError)
        case Some(v) => Ok(if EndsWith(v, suffix) then kept + [b] else kept)
  }

  /** The sub-options kept for `category`: all of them for 0, otherwise those
      whose value ends with the category's decimal string. */
  function FilterSuboptions(buttons: seq<Button>, category: int): Result<seq<Button>>
  {
    if category == 0 then Ok(buttons) else KeepSuffix(buttons, Str(category))
  }

  /** `a` is `b` with some elements left out and the rest in their order. */
  predicate IsSubsequence<T(==)>(a: seq<T>, b: seq<T>)
    decreases |b|
  {
    a == []
    || (b != []
        && ((a[|a| - 1] == b[|b| - 1] && IsSubsequence(a[..|a| - 1], b[..|b| - 1]))
            || IsSubsequence(a, b[..|b| - 1])))
  }

  lemma {:induction false} SubsequenceOfItself<T>(a: seq<T>)
    ensures IsSubsequence(a, a)
  {
    if a != [] {
      SubsequenceOfItself(a[..|a| - 1]);
    }
  }

  lemma {:induction false} KeepSuffixFails(buttons: seq<Button>, suffix: string)
    ensures KeepSuffix(buttons, suffix).Err? <==> exists i :: 0 <= i < |buttons| && buttons[i].value.None?
  {
    if buttons != [] {
      var init := buttons[..|buttons| - 1];
      KeepSuffixFails(init, suffix);
      assert forall i :: 0 <= i < |init| ==> init[i] == buttons[i];
    }
  }

  lemma {:induction false} KeepSuffixKeeps(buttons: seq<Button>, suffix: string)
    requires KeepSuffix(buttons, suffix).Ok?
    ensures var kept := KeepSuffix(buttons, suffix).value;
            IsSubsequence(kept, buttons)
            && (forall b :: b in kept <==> b in buttons && Matches(b, suffix))
            && forall b :: multiset(kept)[b] == if Matches(b, suffix) then multiset(buttons)[b] else 0
  {
    if buttons != [] {
      var init, b := buttons[..|buttons| - 1], buttons[|buttons| - 1];
      KeepSuffixKeeps(init, suffix);
      assert buttons == init + [b];
      assert multiset(buttons) == multiset(init) + multiset{b};
      var kept := KeepSuffix(buttons, suffix).value;
      var k0 := KeepSuffix(init, suffix).value;
      if Matches(b, suffix) {
        assert kept == k0 + [b];
        assert kept[..|kept| - 1] == k0;
      } else {
        assert kept == k0;
        if kept != [] {
          assert IsSubsequence(kept, buttons[..|buttons| - 1]);
        }
      }
    }
  }

  /** Category 0 keeps every button; any other category keeps, in order, exactly
      the buttons whose value ends with its decimal string, and fails with
      KeyError exactly when some button has no value. */
  lemma FilterSuboptionsSpec(buttons: seq<Button>, category: int)
    ensures category == 0 ==> FilterSuboptions(buttons, category) == Ok(buttons)
    ensures category != 0 ==>
              (FilterSuboptions(buttons, category).Err? <==>
                 exists i :: 0 <= i < |buttons| && buttons[i].value.None?)
    ensures FilterSuboptions(buttons, category).Err? ==>
              FilterSuboptions(buttons, category).fault == KeyError
    ensures FilterSuboptions(buttons, category).Ok? ==>
              var kept := FilterSuboptions(buttons, category).value;
              IsSubsequence(kept, buttons)
              && (forall b :: b in kept <==> b in buttons && (category == 0 || Matches(b, Str(category))))
              && forall b :: multiset(kept)[b]
                             == if category == 0 || Matches(b, Str(category)) then multiset(buttons)[b] else 0
  {
    if category == 0 {
      SubsequenceOfItself(buttons);
    } else {
      KeepSuffixFails(buttons, Str(category));
      if KeepSuffix(buttons, Str(category)).Ok? {
        KeepSuffixKeeps(buttons, Str(category));
      }
    }
  }

  /** One more button at the end, in the form of appending. */
  lemma KeepSuffixAppend(buttons: seq<Button>, b: Button, suffix: string)
    requires b.value.Some?
    ensures var r := KeepSuffix(buttons, suffix);
            KeepSuffix(buttons + [b], suffix)
            == if r.Err? then r else Ok(if EndsWith(b.value.value, suffix) then r.value + [b] else r.value)
  {
    assert (buttons + [b])[..|buttons|] == buttons;
  }

  /** Category 3 keeps values ending in "3" and drops one where "3" is not the last character. */
  lemma SuffixExample()
    ensures FilterSuboptions([Button(Some("opt_03"), "a"), Button(Some("opt_13x"), "b"),
                              Button(Some("subopcao_13"), "c")], 3)
            == Ok([Button(Some("opt_03"), "a"), Button(Some("subopcao_13"), "c")])
  {
    var b0 := Button(Some("opt_03"), "a");
    var b1 := Button(Some("opt_13x"), "b");
    var b2 := Button(Some("subopcao_13"), "c");
    var p1: seq<Button> := [b0];
    var p2 := p1 + [b1];
    var p3 := p2 + [b2];
    assert Str(3) == "3";
    assert KeepSuffix(p1, "3") == Ok([b0]) by {
      assert EndsWith("opt_03", "3");
      KeepSuffixAppend([], b0, "3");
      assert [] + [b0] == p1;
    }
    assert KeepSuffix(p2, "3") == Ok([b0]) by {
      assert !EndsWith("opt_13x", "3");
      KeepSuffixAppend(p1, b1, "3");
    }
    assert KeepSuffix(p3, "3") == Ok([b0, b2]) by {
      assert EndsWith("subopcao_13", "3");
      KeepSuffixAppend(p2, b2, "3");
      assert [b0] + [b2] == [b0, b2];
    }
    assert [b0, b1, b2] == p3;
  }
}

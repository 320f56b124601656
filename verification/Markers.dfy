/** Markers and captures: `normalize.py` and `_params_for_fragment` of `pipeline/core.py`.

    Normalisation lowercases a card text, then replaces quoted names and numbers by
    upper-case markers and keeps what it replaced. Everything downstream relies on the
    k-th marker still belonging to the k-th captured value. */
module Markers {
  import Canonical
  import opened Numerals
  import opened Wrappers

  const NAME_MARK := "【CARD_NAME】"
  const NUMBER_MARK := "【N】"
  const OPEN: char := '【'
  const CLOSE: char := '】'
  const QUOTE: char := '\"'

  predicate Upper(c: char) { 'A' <= c <= 'Z' }

  /** What `str.lower` leaves: no upper-case ASCII letter. */
  predicate Lowered(t: string) {
    forall i :: 0 <= i < |t| ==> !Upper(t[i])
  }

  // ----- counting and finding -----

  /** `t.count(m)`: left to right, without overlap. */
  function Count(m: string, t: string): nat
    requires |m| > 0
    decreases |t|
  {
    if |t| == 0 then 0
    else if m <= t then 1 + Count(m, t[|m|..])
    else Count(m, t[1..])
  }

  /** The number of positions at which `m` occurs. */
  function Occurrences(m: string, t: string): nat
    decreases |t|
  {
    if |t| == 0 then 0 else (if m <= t then 1 else 0) + Occurrences(m, t[1..])
  }

  /** The opening bracket of a marker does not occur again inside it. */
  predicate Unbordered(m: string) {
    |m| > 0 && forall i :: 0 < i < |m| ==> m[i] != m[0]
  }

  lemma MarksUnbordered()
    ensures Unbordered(NAME_MARK) && Unbordered(NUMBER_MARK)
    ensures |NAME_MARK| == 11 && |NUMBER_MARK| == 3
  {
  }

  /** Characters other than the marker's first start no occurrence. */
  lemma {:induction false} OccurrencesSkip(m: string, t: string, k: nat)
    requires |m| > 0 && k <= |t|
    requires forall i :: 0 <= i < k ==> t[i] != m[0]
    ensures Occurrences(m, t) == Occurrences(m, t[k..])
    decreases k
  {
    if k > 0 {
      assert t[0] != m[0];
      OccurrencesSkip(m, t[1..], k - 1);
      assert t[1..][k - 1..] == t[k..];
    } else {
      assert t[0..] == t;
    }
  }

  lemma {:induction false} CountIsOccurrences(m: string, t: string)
    requires Unbordered(m)
    ensures Count(m, t) == Occurrences(m, t)
    decreases |t|
  {
    if |t| > 0 {
      if m <= t {
        assert forall i :: 0 < i < |m| ==> t[i] == m[i];
        OccurrencesSkip(m, t[1..], |m| - 1);
        assert t[1..][|m| - 1..] == t[|m|..];
        CountIsOccurrences(m, t[|m|..]);
      } else {
        CountIsOccurrences(m, t[1..]);
      }
    }
  }

  lemma {:induction false} OccurrencesSplit(m: string, a: string, b: string)
    requires |m| > 0
    ensures Occurrences(m, a + b) >= Occurrences(m, a) + Occurrences(m, b)
    decreases |a|
  {
    if |a| == 0 {
      assert a + b == b;
    } else {
      assert (a + b)[1..] == a[1..] + b;
      OccurrencesSplit(m, a[1..], b);
    }
  }

  /** `t.find(f)` from position `at` on. */
  function FindFrom(t: string, f: string, at: nat): (r: Option<nat>)
    requires at <= |t|
    ensures r.Some? ==> at <= r.value <= |t| && f <= t[r.value..]
    ensures r.Some? ==> forall i :: at <= i < r.value ==> !(f <= t[i..])
    ensures r.None? ==> forall i :: at <= i <= |t| ==> !(f <= t[i..])
    decreases |t| - at
  {
    if f <= t[at..] then Some(at)
    else if at == |t| then None
    else FindFrom(t, f, at + 1)
  }

  function Find(t: string, f: string): Option<nat> { FindFrom(t, f, 0) }

  // ----- _extract_card_names: a quote, other characters, a quote -----

  /** Index of the next quote at or after `i`, or the length of the text. */
  function NextQuote(t: string, i: nat): (j: nat)
    requires i <= |t|
    ensures i <= j <= |t|
    ensures forall k :: i <= k < j ==> t[k] != QUOTE
    ensures j < |t| ==> t[j] == QUOTE
    decreases |t| - i
  {
    if i == |t| || t[i] == QUOTE then i else NextQuote(t, i + 1)
  }

  /** A quoted name starts here: a quote, one or more other characters, a quote. */
  predicate NameHere(t: string) {
    |t| > 0 && t[0] == QUOTE && 1 < NextQuote(t, 1) < |t|
  }

  function ExtractNames(t: string): (r: (string, seq<string>))
    decreases |t|
  {
    if |t| == 0 then ("", [])
    else if NameHere(t) then
      var j := NextQuote(t, 1);
      var rest := ExtractNames(t[j + 1..]);
      (NAME_MARK + rest.0, [t[1..j]] + rest.1)
    else
      var rest := ExtractNames(t[1..]);
      ([t[0]] + rest.0, rest.1)
  }

  // ----- _extract_numbers: digits between word boundaries -----

  function DigitRun(cs: CharClasses, t: string): (n: nat)
    ensures n <= |t|
    ensures forall i :: 0 <= i < n ==> cs.digit(t[i])
    ensures n < |t| ==> !cs.digit(t[n])
    decreases |t|
  {
    if |t| == 0 || !cs.digit(t[0]) then 0 else 1 + DigitRun(cs, t[1..])
  }

  /** A run of digits between word boundaries starts here; `inWord` says whether the
      character before is a word character. */
  predicate NumberHere(cs: CharClasses, inWord: bool, t: string) {
    var n := DigitRun(cs, t);
    !inWord && n > 0 && (n == |t| || !cs.word(t[n]))
  }

  /** Replaces the runs of digits and lists them. */
  function ScanNumbers(cs: CharClasses, inWord: bool, t: string): (r: (string, seq<string>))
    decreases |t|
  {
    if |t| == 0 then ("", [])
    else if NumberHere(cs, inWord, t) then
      var n := DigitRun(cs, t);
      var rest := ScanNumbers(cs, true, t[n..]);
      (NUMBER_MARK + rest.0, [t[..n]] + rest.1)
    else
      var rest := ScanNumbers(cs, cs.word(t[0]), t[1..]);
      ([t[0]] + rest.0, rest.1)
  }

  /** The runs of digits that normalisation replaces. */
  function CapturedRuns(cs: CharClasses, lowered: string): seq<string> {
    ScanNumbers(cs, false, ExtractNames(lowered).0).1
  }

  // ----- _extract_categories: a word, blanks and digits -----

  const CATEGORY_WORDS: seq<string> := ["level", "rank", "link"]

  function SpaceRun(cs: CharClasses, t: string): (n: nat)
    ensures n <= |t|
    ensures forall i :: 0 <= i < n ==> cs.space(t[i])
  {
    if |t| == 0 || !cs.space(t[0]) then 0 else 1 + SpaceRun(cs, t[1..])
  }

  /** Where the digits of a category that starts here begin: `\bword\s+(\d+)`. */
  function CategoryDigits(cs: CharClasses, word: string, inWord: bool, t: string): (at: Option<nat>)
    ensures at.Some? ==> 0 < at.value < |t| && cs.space(t[at.value - 1]) && DigitRun(cs, t[at.value..]) > 0
  {
    if |t| == 0 || inWord == cs.word(t[0]) || !(word <= t) then None
    else
      var spaces := SpaceRun(cs, t[|word|..]);
      var at := |word| + spaces;
      if spaces == 0 || DigitRun(cs, t[at..]) == 0 then None
      else
        assert t[at - 1] == t[|word|..][spaces - 1];
        Some(at)
  }

  /** The digits of a category and the character after them. */
  datatype Capture = Capture(run: string, next: Option<char>)

  function CaptureAt(cs: CharClasses, t: string, at: nat): Capture
    requires at <= |t|
  {
    var end := at + DigitRun(cs, t[at..]);
    Capture(t[at..end], if end < |t| then Some(t[end]) else None)
  }

  /** What follows the digits. */
  function Behind(cs: CharClasses, t: string, at: nat): (rest: string)
    requires at <= |t|
    ensures |rest| <= |t| - at
  {
    t[at + DigitRun(cs, t[at..])..]
  }

  function CategoryCaptures(cs: CharClasses, word: string, inWord: bool, t: string): seq<Capture>
    decreases |t|
  {
    if |t| == 0 then []
    else
      var at := CategoryDigits(cs, word, inWord, t);
      if at.None? then CategoryCaptures(cs, word, cs.word(t[0]), t[1..])
      else [CaptureAt(cs, t, at.value)] + CategoryCaptures(cs, word, true, Behind(cs, t, at.value))
  }

  /** The digits of one category, each time they occur. */
  function CategoryRuns(cs: CharClasses, word: string, t: string): (r: seq<string>)
    ensures |r| == |CategoryCaptures(cs, word, false, t)|
  {
    var captures := CategoryCaptures(cs, word, false, t);
    seq(|captures|, i requires 0 <= i < |captures| => captures[i].run)
  }

  /** Each value once, in the order of its first occurrence. */
  function Once(values: seq<nat>): seq<nat> {
    if |values| == 0 then []
    else
      var front, last := Once(values[..|values| - 1]), values[|values| - 1];
      if last in front then front else front + [last]
  }

  ghost predicate CategoriesReadable(cs: CharClasses, words: seq<string>, t: string) {
    forall w, run :: w in words && run in CategoryRuns(cs, w, t) ==> |run| <= cs.maxDigits
  }

  /** The values of each category in `words`. */
  function Categories(cs: CharClasses, words: seq<string>, t: string): (r: Option<seq<seq<nat>>>)
    ensures r.Some? <==> CategoriesReadable(cs, words, t)
    ensures r.Some? ==> |r.value| == |words|
  {
    if |words| == 0 then Some([])
    else
      var first, rest := ToInts(cs, CategoryRuns(cs, words[0], t)), Categories(cs, words[1..], t);
      if first.None? || rest.None? then None else Some([Once(first.value)] + rest.value)
  }

  // ----- normalize_card_texts -----

  datatype Normalized = Normalized(
    text: string, names: seq<string>, numbers: seq<nat>, categories: seq<seq<nat>>)

  /** The text with both kinds of marker. */
  function MarkedText(cs: CharClasses, lowered: string): string {
    ScanNumbers(cs, false, ExtractNames(lowered).0).0
  }

  /** `normalize_card_texts` on a text already lowercased and stripped: numbers are kept as ints, and
      levels, ranks and links are read off the marked text. `None` stands for the ValueError of a
      number with too many digits. */
  function Normalize(cs: CharClasses, lowered: string): Option<Normalized> {
    var (named, names) := ExtractNames(lowered);
    var (text, runs) := ScanNumbers(cs, false, named);
    var numbers := ToInts(cs, runs);
    var categories := Categories(cs, CATEGORY_WORDS, text);
    if numbers.None? || categories.None? then None
    else Some(Normalized(text, names, numbers.value, categories.value))
  }

  // ----- putting the captures back -----

  /** Replaces the k-th marker by the k-th value between `quote`s. */
  function Fill(m: string, quote: string, t: string, values: seq<string>): string
    requires |m| > 0
    decreases |t|
  {
    if |t| == 0 then ""
    else if m <= t && |values| > 0 then quote + values[0] + quote + Fill(m, quote, t[|m|..], values[1..])
    else [t[0]] + Fill(m, quote, t[1..], values)
  }

  /** A text begins with no character a marker could continue with. */
  predicate PlainStart(t: string) {
    |t| > 0 ==> !Upper(t[0])
  }

  lemma ExtractNamesStart(t: string)
    requires Lowered(t)
    ensures PlainStart(ExtractNames(t).0)
  {
    if NameHere(t) { assert (NAME_MARK + ExtractNames(t[NextQuote(t, 1) + 1..]).0)[0] == OPEN; }
  }

  lemma {:induction false} NamesFillBack(t: string)
    requires Lowered(t)
    ensures var r := ExtractNames(t);
      && Occurrences(NAME_MARK, r.0) == |r.1|
      && Fill(NAME_MARK, "\"", r.0, r.1) == t
    decreases |t|
  {
    MarksUnbordered();
    if |t| == 0 {
    } else if NameHere(t) {
      var j := NextQuote(t, 1);
      var rest := ExtractNames(t[j + 1..]);
      NamesFillBack(t[j + 1..]);
      MarkInFront(NAME_MARK, rest.0);
      FillMark(NAME_MARK, "\"", rest.0, t[1..j], rest.1);
      QuotedName(t, j);
    } else {
      var rest := ExtractNames(t[1..]);
      NamesFillBack(t[1..]);
      ExtractNamesStart(t[1..]);
      NoMarkAcross(NAME_MARK, t[0], rest.0);
      FillPlain(NAME_MARK, "\"", t[0], rest.0, rest.1);
      assert t == [t[0]] + t[1..];
    }
  }

  lemma QuotedName(t: string, j: nat)
    requires 1 < j < |t| && t[0] == QUOTE && t[j] == QUOTE
    ensures t == "\"" + t[1..j] + "\"" + t[j + 1..]
  {
  }

  lemma FillMark(m: string, quote: string, t: string, value: string, values: seq<string>)
    requires Unbordered(m)
    ensures Fill(m, quote, m + t, [value] + values) == quote + value + quote + Fill(m, quote, t, values)
  {
    MarkInFront(m, t);
    assert ([value] + values)[1..] == values;
  }

  lemma FillPlain(m: string, quote: string, c: char, t: string, values: seq<string>)
    requires |m| > 0 && !(m <= [c] + t)
    ensures Fill(m, quote, [c] + t, values) == [c] + Fill(m, quote, t, values)
  {
    assert ([c] + t)[1..] == t;
  }

  lemma MarkInFront(m: string, t: string)
    requires Unbordered(m)
    ensures m <= m + t && (m + t)[|m|..] == t
    ensures Occurrences(m, m + t) == 1 + Occurrences(m, t)
  {
    var u := m + t;
    assert u[..|m|] == m;
    assert forall i :: 0 < i < |m| ==> u[i] == m[i];
    OccurrencesSkip(m, u[1..], |m| - 1);
    assert u[1..][|m| - 1..] == t;
  }

  /** One plain character in front completes no marker. */
  lemma NoMarkAcross(m: string, c: char, t: string)
    requires m == NAME_MARK || m == NUMBER_MARK
    requires c == OPEN && |t| > 0 ==> t[0] != m[1]
    ensures !(m <= [c] + t)
    ensures Occurrences(m, [c] + t) == Occurrences(m, t)
  {
    var u := [c] + t;
    assert u[1..] == t;
    assert u[0] == c && (|t| > 0 ==> u[1] == t[0]);
    assert m[0] == OPEN && |m| > 1;
  }

  /** No `【` is followed by the `N` of a number marker. */
  predicate NoNumberMark(t: string) {
    forall i :: 0 <= i < |t| - 1 && t[i] == OPEN ==> t[i + 1] != 'N'
  }

  lemma {:induction false} ExtractNamesNoNumberMark(t: string)
    requires Lowered(t)
    ensures NoNumberMark(ExtractNames(t).0)
    decreases |t|
  {
    if |t| == 0 {
    } else if NameHere(t) {
      var rest := ExtractNames(t[NextQuote(t, 1) + 1..]).0;
      ExtractNamesNoNumberMark(t[NextQuote(t, 1) + 1..]);
      var u := NAME_MARK + rest;
      forall i | 0 <= i < |u| - 1 && u[i] == OPEN ensures u[i + 1] != 'N' {
        if i < 11 { assert i == 0; } else { assert u[i] == rest[i - 11] && u[i + 1] == rest[i - 10]; }
      }
    } else {
      var rest := ExtractNames(t[1..]).0;
      ExtractNamesNoNumberMark(t[1..]);
      ExtractNamesStart(t[1..]);
      var u := [t[0]] + rest;
      forall i | 0 <= i < |u| - 1 && u[i] == OPEN ensures u[i + 1] != 'N' {
        assert u[i + 1] == rest[i];
        if i > 0 { assert u[i] == rest[i - 1]; }
      }
    }
  }

  ghost predicate FillsBack(m: string, quote: string, r: (string, seq<string>), t: string)
    requires |m| > 0
  {
    Occurrences(m, r.0) == |r.1| && Fill(m, quote, r.0, r.1) == t
  }

  lemma {:induction false} NumbersFillBack(cs: CharClasses, inWord: bool, t: string)
    requires cs.Valid() && NoNumberMark(t)
    ensures FillsBack(NUMBER_MARK, "", ScanNumbers(cs, inWord, t), t)
    decreases |t|
  {
    if |t| == 0 {
    } else if NumberHere(cs, inWord, t) {
      var n := DigitRun(cs, t);
      assert NoNumberMark(t[n..]);
      NumbersFillBack(cs, true, t[n..]);
      NumberTaken(t, n, ScanNumbers(cs, true, t[n..]));
    } else {
      assert NoNumberMark(t[1..]);
      NumbersFillBack(cs, cs.word(t[0]), t[1..]);
      if |t| > 1 { ScanNumbersStart(cs, cs.word(t[0]), t[1..]); }
      CharacterKept(t, ScanNumbers(cs, cs.word(t[0]), t[1..]));
    }
  }

  lemma NumberTaken(t: string, n: nat, rest: (string, seq<string>))
    requires n <= |t| && FillsBack(NUMBER_MARK, "", rest, t[n..])
    ensures FillsBack(NUMBER_MARK, "", (NUMBER_MARK + rest.0, [t[..n]] + rest.1), t)
  {
    MarksUnbordered();
    MarkInFront(NUMBER_MARK, rest.0);
    FillMark(NUMBER_MARK, "", rest.0, t[..n], rest.1);
    assert t == "" + t[..n] + "" + t[n..];
  }

  lemma CharacterKept(t: string, rest: (string, seq<string>))
    requires |t| > 0 && FillsBack(NUMBER_MARK, "", rest, t[1..])
    requires t[0] == OPEN && |rest.0| > 0 ==> rest.0[0] != 'N'
    ensures FillsBack(NUMBER_MARK, "", ([t[0]] + rest.0, rest.1), t)
  {
    NoMarkAcross(NUMBER_MARK, t[0], rest.0);
    FillPlain(NUMBER_MARK, "", t[0], rest.0, rest.1);
    assert t == [t[0]] + t[1..];
  }

  lemma ScanNumbersStart(cs: CharClasses, inWord: bool, t: string)
    requires |t| > 0
    ensures var r := ScanNumbers(cs, inWord, t).0; |r| > 0 && (r[0] == OPEN || r[0] == t[0])
  {
  }

  lemma PrefixCons(p: string, c: char, t: string)
    requires |p| > 0
    ensures p <= [c] + t <==> p[0] == c && p[1..] <= t
  {
    var u := [c] + t;
    assert u[1..] == t;
    if p <= u { assert p[1..] == u[1..][..|p| - 1]; }
    if p[0] == c && p[1..] <= t { assert p == [c] + p[1..]; }
  }

  /** A text without digits and brackets passes through number extraction untouched. */
  lemma {:induction false} PlainPrefix(cs: CharClasses, inWord: bool, t: string, p: string)
    requires forall i :: 0 <= i < |p| ==> p[i] != OPEN && !cs.digit(p[i])
    ensures p <= ScanNumbers(cs, inWord, t).0 <==> p <= t
    decreases |p|
  {
    if |p| > 0 && |t| > 0 {
      assert t == [t[0]] + t[1..];
      PrefixCons(p, t[0], t[1..]);
      if NumberHere(cs, inWord, t) {
        assert cs.digit(t[0]);
        var rest := ScanNumbers(cs, true, t[DigitRun(cs, t)..]).0;
        assert NUMBER_MARK + rest == [OPEN] + (NUMBER_MARK[1..] + rest);
        PrefixCons(p, OPEN, NUMBER_MARK[1..] + rest);
      } else {
        PrefixCons(p, t[0], ScanNumbers(cs, cs.word(t[0]), t[1..]).0);
        PlainPrefix(cs, cs.word(t[0]), t[1..], p[1..]);
      }
    }
  }

  lemma {:induction false} NumbersKeepNames(cs: CharClasses, inWord: bool, t: string)
    requires cs.Valid()
    ensures Occurrences(NAME_MARK, ScanNumbers(cs, inWord, t).0) == Occurrences(NAME_MARK, t)
    decreases |t|
  {
    MarksUnbordered();
    if |t| == 0 {
    } else if NumberHere(cs, inWord, t) {
      var n := DigitRun(cs, t);
      var rest := ScanNumbers(cs, true, t[n..]).0;
      NumbersKeepNames(cs, true, t[n..]);
      OccurrencesSkip(NAME_MARK, t, n);
      NumberMarkHidesNoName(rest);
    } else {
      var inner := cs.word(t[0]);
      var rest := ScanNumbers(cs, inner, t[1..]).0;
      NumbersKeepNames(cs, inner, t[1..]);
      PlainPrefix(cs, inner, t[1..], NAME_MARK[1..]);
      PrefixCons(NAME_MARK, t[0], rest);
      PrefixCons(NAME_MARK, t[0], t[1..]);
      assert t == [t[0]] + t[1..] && ([t[0]] + rest)[1..] == rest;
    }
  }

  lemma NumberMarkHidesNoName(t: string)
    ensures Occurrences(NAME_MARK, NUMBER_MARK + t) == Occurrences(NAME_MARK, t)
  {
    var u := NUMBER_MARK + t;
    assert u[1] == 'N' && NAME_MARK[1] == 'C';
    assert u[1..][0] == 'N' && u[1..][1] == CLOSE;
    OccurrencesSkip(NAME_MARK, u[1..], 2);
    assert u[1..][2..] == t;
  }

  // ----- when the numbers come back as they were -----

  function DecimalTexts(numbers: seq<nat>): (r: seq<string>)
    ensures |r| == |numbers| && forall i :: 0 <= i < |r| ==> r[i] == Canonical.NatText(numbers[i])
  {
    seq(|numbers|, i requires 0 <= i < |numbers| => Canonical.NatText(numbers[i]))
  }

  /** The numbers put back, then the names. */
  function Refilled(text: string, names: seq<string>, numbers: seq<nat>): string {
    Fill(NAME_MARK, "\"", Fill(NUMBER_MARK, "", text, DecimalTexts(numbers)), names)
  }

  function Restored(n: Normalized): string { Refilled(n.text, n.names, n.numbers) }

  lemma {:induction false} RunsAreDigits(cs: CharClasses, inWord: bool, t: string)
    ensures forall i :: 0 <= i < |ScanNumbers(cs, inWord, t).1| ==> AllDigits(cs, ScanNumbers(cs, inWord, t).1[i])
    decreases |t|
  {
    if |t| > 0 {
      if NumberHere(cs, inWord, t) {
        RunsAreDigits(cs, true, t[DigitRun(cs, t)..]);
      } else {
        RunsAreDigits(cs, cs.word(t[0]), t[1..]);
      }
    }
  }

  /** What replacing the markers by the values adds in weight. */
  function Gain(m: string, quote: string, values: seq<string>): int {
    if |values| == 0 then 0
    else Weight(quote) + Weight(values[0]) + Weight(quote) - Weight(m) + Gain(m, quote, values[1..])
  }

  lemma {:induction false} FillWeight(m: string, quote: string, t: string, values: seq<string>)
    requires Unbordered(m) && Occurrences(m, t) == |values|
    ensures Weight(Fill(m, quote, t, values)) == Weight(t) + Gain(m, quote, values)
    decreases |t|
  {
    if |t| > 0 {
      if m <= t {
        var rest := t[|m|..];
        assert t == m + rest;
        MarkInFront(m, rest);
        FillWeight(m, quote, rest, values[1..]);
        WeightConcat(m, rest);
        WeightConcat(quote, values[0]);
        WeightConcat(quote + values[0], quote);
        WeightConcat(quote + values[0] + quote, Fill(m, quote, rest, values[1..]));
      } else {
        FillWeight(m, quote, t[1..], values);
        assert t == [t[0]] + t[1..];
        WeightConcat([t[0]], t[1..]);
        WeightConcat([t[0]], Fill(m, quote, t[1..], values));
      }
    }
  }

  /** Values that each reprint a run gain as much together only if each does. */
  lemma {:induction false} ReprintsGain(m: string, values: seq<string>, runs: seq<string>)
    requires |values| == |runs| && forall i :: 0 <= i < |runs| ==> Reprints(values[i], runs[i])
    ensures Gain(m, "", values) <= Gain(m, "", runs)
    ensures Gain(m, "", values) == Gain(m, "", runs) ==> values == runs
  {
    if |runs| > 0 {
      assert Reprints(values[0], runs[0]);
      ReprintsGain(m, values[1..], runs[1..]);
      if Gain(m, "", values) == Gain(m, "", runs) {
        assert values[0] == runs[0];
        assert values == [values[0]] + values[1..] && runs == [runs[0]] + runs[1..];
      }
    }
  }

  /** Numbers filled in neither make nor break the rest of a name marker. */
  lemma {:induction false} FillPrefix(t: string, values: seq<string>, p: string)
    requires forall i :: 0 <= i < |values| ==> values[i] != "" && AllAscii(values[i])
    requires forall i :: 0 <= i < |p| ==> p[i] != OPEN && !Canonical.IsDigit(p[i])
    ensures p <= Fill(NUMBER_MARK, "", t, values) <==> p <= t
    decreases |p|
  {
    if |p| > 0 && |t| > 0 {
      assert t == [t[0]] + t[1..];
      PrefixCons(p, t[0], t[1..]);
      if NUMBER_MARK <= t && |values| > 0 {
        var filled := Fill(NUMBER_MARK, "", t, values);
        assert filled[0] == values[0][0] && t[0] == OPEN;
      } else {
        PrefixCons(p, t[0], Fill(NUMBER_MARK, "", t[1..], values));
        FillPrefix(t[1..], values, p[1..]);
      }
    }
  }

  lemma {:induction false} FillKeepsNames(t: string, values: seq<string>)
    requires forall i :: 0 <= i < |values| ==> values[i] != "" && AllAscii(values[i])
    ensures Occurrences(NAME_MARK, Fill(NUMBER_MARK, "", t, values)) == Occurrences(NAME_MARK, t)
    decreases |t|
  {
    if |t| > 0 {
      if NUMBER_MARK <= t && |values| > 0 {
        var rest := t[|NUMBER_MARK|..];
        assert t == NUMBER_MARK + rest;
        FillKeepsNames(rest, values[1..]);
        NumberMarkHidesNoName(rest);
        DigitsHideNoName(values[0], Fill(NUMBER_MARK, "", rest, values[1..]));
      } else {
        var rest := Fill(NUMBER_MARK, "", t[1..], values);
        FillKeepsNames(t[1..], values);
        NameTailPlain();
        FillPrefix(t[1..], values, NAME_MARK[1..]);
        PrefixCons(NAME_MARK, t[0], rest);
        PrefixCons(NAME_MARK, t[0], t[1..]);
        assert t == [t[0]] + t[1..] && ([t[0]] + rest)[1..] == rest;
      }
    }
  }

  lemma NameTailPlain()
    ensures forall i :: 0 <= i < |NAME_MARK[1..]| ==> NAME_MARK[1..][i] != OPEN && !Canonical.IsDigit(NAME_MARK[1..][i])
  {
    MarksUnbordered();
  }

  lemma DigitsHideNoName(value: string, rest: string)
    requires AllAscii(value)
    ensures Occurrences(NAME_MARK, "" + value + "" + rest) == Occurrences(NAME_MARK, rest)
  {
    var u := "" + value + "" + rest;
    assert u[|value|..] == rest;
    OccurrencesSkip(NAME_MARK, u, |value|);
  }

  /** Every run that is captured, or read as a level, rank or link off the marked text, is short enough
      for `int`. */
  ghost predicate RunsReadable(cs: CharClasses, lowered: string) {
    && (forall run :: run in CapturedRuns(cs, lowered) ==> |run| <= cs.maxDigits)
    && CategoriesReadable(cs, CATEGORY_WORDS, MarkedText(cs, lowered))
  }

  lemma AllReadable(cs: CharClasses, runs: seq<string>)
    ensures ToInts(cs, runs).Some? <==> forall run :: run in runs ==> |run| <= cs.maxDigits
  {
  }

  lemma FinishesIffReadable(cs: CharClasses, lowered: string)
    ensures Normalize(cs, lowered).Some? <==> RunsReadable(cs, lowered)
  {
    AllReadable(cs, CapturedRuns(cs, lowered));
  }

  /** Normalisation finishes exactly when every run it reads is short enough. Each marker kind then
      occurs exactly as often as values were captured for it, and putting them back in order
      restores the lowercased text exactly when every captured run is a plain decimal. */
  lemma NormalizeAligned(cs: CharClasses, lowered: string)
    requires cs.Valid() && Lowered(lowered)
    ensures var r := Normalize(cs, lowered);
      && (r.Some? <==> RunsReadable(cs, lowered))
      && (r.Some? ==>
            && Count(NAME_MARK, r.value.text) == |r.value.names|
            && Count(NUMBER_MARK, r.value.text) == |r.value.numbers|
            && (Restored(r.value) == lowered
                <==> forall run :: run in CapturedRuns(cs, lowered) ==> PlainDecimal(run)))
  {
    FinishesIffReadable(cs, lowered);
    var numbers := ToInts(cs, CapturedRuns(cs, lowered));
    if numbers.Some? {
      MarksCount(cs, lowered);
      RestoredIffPlain(cs, lowered, numbers.value);
    }
  }

  lemma MarksCount(cs: CharClasses, lowered: string)
    requires cs.Valid() && Lowered(lowered)
    ensures Count(NAME_MARK, MarkedText(cs, lowered)) == |ExtractNames(lowered).1|
    ensures Count(NUMBER_MARK, MarkedText(cs, lowered)) == |CapturedRuns(cs, lowered)|
  {
    MarksUnbordered();
    var named := ExtractNames(lowered).0;
    var text := ScanNumbers(cs, false, named).0;
    NamesFillBack(lowered);
    ExtractNamesNoNumberMark(lowered);
    NumbersFillBack(cs, false, named);
    NumbersKeepNames(cs, false, named);
    CountIsOccurrences(NAME_MARK, text);
    CountIsOccurrences(NUMBER_MARK, text);
  }

  lemma RestoredIffPlain(cs: CharClasses, lowered: string, numbers: seq<nat>)
    requires cs.Valid() && Lowered(lowered) && ToInts(cs, CapturedRuns(cs, lowered)) == Some(numbers)
    ensures Refilled(MarkedText(cs, lowered), ExtractNames(lowered).1, numbers) == lowered
            <==> forall run :: run in CapturedRuns(cs, lowered) ==> PlainDecimal(run)
  {
    var (named, names) := ExtractNames(lowered);
    var (text, runs) := ScanNumbers(cs, false, named);
    var values := DecimalTexts(numbers);
    RunsAreDigits(cs, false, named);
    forall i | 0 <= i < |runs| ensures Reprints(values[i], runs[i]) { ReprintRun(cs, runs[i]); }
    NamesFillBack(lowered);
    ExtractNamesNoNumberMark(lowered);
    NumbersFillBack(cs, false, named);
    NumbersKeepNames(cs, false, named);
    if Refilled(text, names, numbers) == lowered {
      FillKeepsNames(text, values);
      SameWeight(Fill(NUMBER_MARK, "", text, values), named, names, lowered);
      SameWeightReprints(text, values, runs);
    }
    if forall run :: run in runs ==> PlainDecimal(run) {
      forall i | 0 <= i < |runs| ensures values[i] == runs[i] {
        assert runs[i] in runs && Reprints(values[i], runs[i]);
      }
      assert values == runs;
    }
  }

  /** A number fill as heavy as the runs' own reprints every run. */
  lemma SameWeightReprints(text: string, values: seq<string>, runs: seq<string>)
    requires |values| == |runs| == Occurrences(NUMBER_MARK, text)
    requires forall i :: 0 <= i < |runs| ==> Reprints(values[i], runs[i])
    requires Weight(Fill(NUMBER_MARK, "", text, values)) == Weight(Fill(NUMBER_MARK, "", text, runs))
    ensures forall run :: run in runs ==> PlainDecimal(run)
  {
    MarksUnbordered();
    FillWeight(NUMBER_MARK, "", text, values);
    FillWeight(NUMBER_MARK, "", text, runs);
    ReprintsGain(NUMBER_MARK, values, runs);
    AllPlain(values, runs);
  }

  lemma SameWeight(filled: string, named: string, names: seq<string>, lowered: string)
    requires Occurrences(NAME_MARK, filled) == Occurrences(NAME_MARK, named) == |names|
    requires Fill(NAME_MARK, "\"", named, names) == lowered == Fill(NAME_MARK, "\"", filled, names)
    ensures Weight(filled) == Weight(named)
  {
    MarksUnbordered();
    FillWeight(NAME_MARK, "\"", filled, names);
    FillWeight(NAME_MARK, "\"", named, names);
  }

  lemma AllPlain(values: seq<string>, runs: seq<string>)
    requires values == runs && forall i :: 0 <= i < |runs| ==> Reprints(values[i], runs[i])
    ensures forall run :: run in runs ==> PlainDecimal(run)
  {
    forall run | run in runs ensures PlainDecimal(run) {
      var i :| 0 <= i < |runs| && runs[i] == run;
      assert Reprints(values[i], runs[i]);
    }
  }

  lemma {:induction false} NoQuotesUntouched(t: string)
    requires forall i :: 0 <= i < |t| ==> t[i] != QUOTE
    ensures ExtractNames(t) == (t, [])
  {
    if |t| > 0 {
      NoQuotesUntouched(t[1..]);
      assert t == [t[0]] + t[1..];
    }
  }

  // ----- which categories are ever read -----

  const NO_CATEGORIES: seq<seq<nat>> := [[], [], []]

  lemma {:induction false} NoDigitsNoCaptures(cs: CharClasses, word: string, inWord: bool, t: string)
    requires forall i :: 0 <= i < |t| ==> !cs.digit(t[i])
    ensures CategoryCaptures(cs, word, inWord, t) == []
    decreases |t|
  {
    if |t| > 0 {
      NoDigitsNoCaptures(cs, word, cs.word(t[0]), t[1..]);
    }
  }

  lemma {:induction false} EmptyCategories(cs: CharClasses, words: seq<string>, t: string)
    requires forall i :: 0 <= i < |t| ==> !cs.digit(t[i])
    ensures var r := Categories(cs, words, t);
      r.Some? && |r.value| == |words| && forall k :: 0 <= k < |words| ==> r.value[k] == []
  {
    if |words| > 0 {
      NoDigitsNoCaptures(cs, words[0], false, t);
      EmptyCategories(cs, words[1..], t);
    }
  }

  lemma NoDigitsNoCategories(cs: CharClasses, t: string)
    requires forall i :: 0 <= i < |t| ==> !cs.digit(t[i])
    ensures Categories(cs, CATEGORY_WORDS, t) == Some(NO_CATEGORIES)
  {
    EmptyCategories(cs, CATEGORY_WORDS, t);
    assert Categories(cs, CATEGORY_WORDS, t).value == NO_CATEGORIES;
  }

  /** Nowhere in the text does a run of digits stand between word boundaries. */
  ghost predicate NoNumber(cs: CharClasses, inWord: bool, t: string)
    decreases |t|
  {
    |t| > 0 ==> !NumberHere(cs, inWord, t) && NoNumber(cs, cs.word(t[0]), t[1..])
  }

  lemma {:induction false} NoNumberFrom(cs: CharClasses, inWord: bool, t: string, p: nat)
    requires NoNumber(cs, inWord, t) && 0 < p <= |t|
    ensures NoNumber(cs, cs.word(t[p - 1]), t[p..])
    decreases |t|
  {
    if p > 1 {
      NoNumberFrom(cs, cs.word(t[0]), t[1..], p - 1);
      assert t[1..][p - 1..] == t[p..];
    }
  }

  lemma {:induction false} DigitRunIs(cs: CharClasses, t: string, n: nat)
    requires n < |t| && !cs.digit(t[n]) && forall i :: 0 <= i < n ==> cs.digit(t[i])
    ensures DigitRun(cs, t) == n
    decreases |t|
  {
    if n > 0 { DigitRunIs(cs, t[1..], n - 1); }
  }

  /** Inside a word the scan keeps every character. */
  lemma {:induction false} WordKept(cs: CharClasses, t: string, m: nat)
    requires m <= |t| && forall i :: 0 <= i < m ==> cs.word(t[i])
    ensures m <= |ScanNumbers(cs, true, t).0| && ScanNumbers(cs, true, t).0[..m] == t[..m]
    decreases m
  {
    if m > 0 {
      WordKept(cs, t[1..], m - 1);
      assert t[..m] == [t[0]] + t[1..][..m - 1];
    }
  }

  /** Digits followed by a word character stay where they are, and what follows them does too. */
  lemma GluedStays(cs: CharClasses, t: string)
    requires cs.Valid() && |t| > 0 && cs.digit(t[0]) && !NumberHere(cs, false, t)
    ensures !NumberHere(cs, false, [t[0]] + ScanNumbers(cs, true, t[1..]).0)
  {
    var n := DigitRun(cs, t);
    var rest := ScanNumbers(cs, true, t[1..]).0;
    var u := [t[0]] + rest;
    WordKept(cs, t[1..], n);
    assert forall i :: 0 <= i <= n ==> u[i] == t[i] by {
      forall i | 0 < i <= n ensures u[i] == t[i] {
        assert u[i] == rest[..n][i - 1] && t[i] == t[1..][..n][i - 1];
      }
    }
    DigitRunIs(cs, u, n);
  }

  lemma MarkThenNoNumber(cs: CharClasses, inWord: bool, rest: string)
    requires cs.Valid() && NoNumber(cs, false, rest)
    ensures NoNumber(cs, inWord, NUMBER_MARK + rest)
  {
    var u := NUMBER_MARK + rest;
    assert u[0] == OPEN && u[1..][0] == 'N' && u[1..][1..][0] == CLOSE && u[1..][1..][1..] == rest;
  }

  /** Number extraction leaves no number: its pattern matches nowhere in the marked text. */
  lemma {:induction false} NoNumberLeft(cs: CharClasses, inWord: bool, t: string)
    requires cs.Valid()
    ensures NoNumber(cs, inWord, ScanNumbers(cs, inWord, t).0)
    decreases |t|
  {
    if |t| == 0 {
    } else if NumberHere(cs, inWord, t) {
      var n := DigitRun(cs, t);
      var rest := ScanNumbers(cs, true, t[n..]).0;
      NoNumberLeft(cs, true, t[n..]);
      if n < |t| {
        ScanNumbersStart(cs, true, t[n..]);
        assert rest[0] == OPEN || rest[0] == t[n];
      }
      MarkThenNoNumber(cs, inWord, rest);
    } else {
      var rest := ScanNumbers(cs, cs.word(t[0]), t[1..]).0;
      NoNumberLeft(cs, cs.word(t[0]), t[1..]);
      assert ([t[0]] + rest)[1..] == rest;
      if cs.digit(t[0]) && !inWord { GluedStays(cs, t); }
    }
  }

  /** Digits with a word character right behind them. */
  predicate Glued(cs: CharClasses, c: Capture) { c.next.Some? && cs.word(c.next.value) }

  ghost predicate AllGlued(cs: CharClasses, captures: seq<Capture>) {
    forall i :: 0 <= i < |captures| ==> Glued(cs, captures[i])
  }

  lemma {:induction false} GluedInFront(
      cs: CharClasses, word: string, inWord: bool, t: string, at: nat, end: nat)
    requires CategoryDigits(cs, word, inWord, t) == Some(at) && end == at + DigitRun(cs, t[at..])
    requires end < |t| && cs.word(t[end]) && AllGlued(cs, CategoryCaptures(cs, word, true, t[end..]))
    ensures AllGlued(cs, CategoryCaptures(cs, word, inWord, t))
  {
  }

  lemma {:induction false} GluedBehind(cs: CharClasses, word: string, inWord: bool, t: string)
    requires |t| > 0 && CategoryDigits(cs, word, inWord, t).None?
    requires AllGlued(cs, CategoryCaptures(cs, word, cs.word(t[0]), t[1..]))
    ensures AllGlued(cs, CategoryCaptures(cs, word, inWord, t))
  {
  }

  /** Digits behind a blank are glued to what follows if no number is left, and the rest has none. */
  lemma {:induction false} DigitsGlued(cs: CharClasses, inWord: bool, t: string, p: nat) returns (end: nat)
    requires cs.Apart() && NoNumber(cs, inWord, t) && 0 < p < |t|
    requires cs.space(t[p - 1]) && DigitRun(cs, t[p..]) > 0
    ensures end == p + DigitRun(cs, t[p..]) && end < |t| && cs.word(t[end]) && NoNumber(cs, true, t[end..])
  {
    var n := DigitRun(cs, t[p..]);
    NoNumberFrom(cs, inWord, t, p);
    assert !NumberHere(cs, false, t[p..]);
    assert t[p..][n] == t[p + n] && t[p..][n - 1] == t[p + n - 1];
    NoNumberFrom(cs, inWord, t, p + n);
    end := p + n;
  }

  lemma {:induction false} CapturesGlued(cs: CharClasses, word: string, inWord: bool, t: string)
    requires cs.Apart() && NoNumber(cs, inWord, t)
    ensures AllGlued(cs, CategoryCaptures(cs, word, inWord, t))
    decreases |t|, 1
  {
    if |t| > 0 {
      if CategoryDigits(cs, word, inWord, t).Some? {
        CapturedGlued(cs, word, inWord, t);
      } else {
        CapturesGlued(cs, word, cs.word(t[0]), t[1..]);
        GluedBehind(cs, word, inWord, t);
      }
    }
  }

  lemma {:induction false} CapturedGlued(cs: CharClasses, word: string, inWord: bool, t: string)
    requires cs.Apart() && NoNumber(cs, inWord, t) && CategoryDigits(cs, word, inWord, t).Some?
    ensures AllGlued(cs, CategoryCaptures(cs, word, inWord, t))
    decreases |t|, 0
  {
    var at := CategoryDigits(cs, word, inWord, t).value;
    var end := DigitsGlued(cs, inWord, t, at);
    CapturesGlued(cs, word, true, t[end..]);
    GluedInFront(cs, word, inWord, t, at, end);
  }

  /** Categories are read off the text whose numbers are already replaced, so a level, rank or link is
      found only where letters follow its digits: never in "level 4". */
  lemma CategoriesOnlyGlued(cs: CharClasses, lowered: string, word: string)
    requires cs.Valid()
    ensures AllGlued(cs, CategoryCaptures(cs, word, false, MarkedText(cs, lowered)))
  {
    NoNumberLeft(cs, false, ExtractNames(lowered).0);
    CapturesGlued(cs, word, false, MarkedText(cs, lowered));
  }

  /** A run of digits alone, after a text without digits that ends outside a word, is captured. */
  lemma {:induction false} ScanBehind(cs: CharClasses, inWord: bool, p: string, t: string)
    requires (forall i :: 0 <= i < |p| ==> !cs.digit(p[i])) && |p| > 0
    ensures var r := ScanNumbers(cs, cs.word(p[|p| - 1]), t);
      ScanNumbers(cs, inWord, p + t) == (p + r.0, r.1)
    decreases |p|
  {
    assert (p + t)[0] == p[0] && (p + t)[1..] == p[1..] + t;
    if |p| > 1 {
      ScanBehind(cs, cs.word(p[0]), p[1..], t);
      var r := ScanNumbers(cs, cs.word(p[|p| - 1]), t);
      assert p[1..][|p| - 2] == p[|p| - 1] && [p[0]] + (p[1..] + r.0) == p + r.0;
    } else {
      assert p[1..] + t == t && p == [p[0]];
    }
  }

  lemma ScanFour(cs: CharClasses)
    requires cs.Valid()
    ensures ScanNumbers(cs, false, "4") == (NUMBER_MARK, ["4"])
  {
    assert Canonical.IsDigit('4') && "4"[1..] == "" && "4"[..1] == "4";
    assert DigitRun(cs, "4") == 1 && NumberHere(cs, false, "4");
    assert NUMBER_MARK + "" == NUMBER_MARK && ["4"] + [] == ["4"];
  }

  lemma LevelHasNoDigits(cs: CharClasses)
    requires cs.Valid()
    ensures forall i :: 0 <= i < |"level "| ==> !cs.digit("level "[i])
    ensures !cs.word("level "[5])
  {
    assert "level "[5] == ' ' && !cs.word(' ');
  }

  /** "level 4" records no level: the 4 is a captured number. */
  lemma PlainLevelLost(cs: CharClasses)
    requires cs.Valid() && cs.maxDigits >= 1
    ensures Normalize(cs, "level 4") == Some(Normalized("level " + NUMBER_MARK, [], [4], NO_CATEGORIES))
  {
    var text := "level " + NUMBER_MARK;
    NoQuotesUntouched("level 4");
    LevelHasNoDigits(cs);
    MarkHasNoDigits(cs);
    ScanFour(cs);
    ScanBehind(cs, false, "level ", "4");
    assert "level " + "4" == "level 4";
    NoDigitsNoCategories(cs, text);
    ReadFour(cs);
  }

  lemma ReadFour(cs: CharClasses)
    requires cs.Valid() && cs.maxDigits >= 1
    ensures ToInts(cs, ["4"]) == Some([4])
  {
    assert Canonical.IsDigit('4');
    ValueOfOne(cs, '4');
    assert ToInts(cs, ["4"]).Some? && ToInts(cs, ["4"]).value == [4];
  }

  lemma ScanLeadingZero(cs: CharClasses)
    requires cs.Valid()
    ensures ScanNumbers(cs, false, "04") == (NUMBER_MARK, ["04"])
  {
    var t := "04";
    assert Canonical.IsDigit('0') && Canonical.IsDigit('4') && t[1..] == "4" && t[1..][1..] == "";
    assert DigitRun(cs, t) == 2 && NumberHere(cs, false, t);
    assert t[2..] == "" && t[..2] == t && NUMBER_MARK + "" == NUMBER_MARK && [t] + [] == [t];
  }

  lemma ReadLeadingZero(cs: CharClasses)
    requires cs.Valid() && cs.maxDigits >= 2
    ensures ToInts(cs, ["04"]) == Some([4])
  {
    assert Canonical.IsDigit('0') && Canonical.IsDigit('4');
    ValueOfOne(cs, '0');
    ValueSnoc(cs, ['0'], '4');
    assert ['0'] + ['4'] == "04" && ValueOf(cs, "04") == 4;
    assert ToInts(cs, ["04"]).Some? && ToInts(cs, ["04"]).value == [4];
  }

  lemma RestoreFour()
    ensures Restored(Normalized(NUMBER_MARK, [], [4], NO_CATEGORIES)) == "4"
  {
    assert Canonical.DIGITS[4] == '4' && Canonical.NatText(4) == "4";
    assert DecimalTexts([4]) == ["4"] && NUMBER_MARK[|NUMBER_MARK|..] == "";
    assert Fill(NUMBER_MARK, "", NUMBER_MARK, ["4"]) == "4";
    assert "4"[1..] == "";
  }

  /** A leading zero is lost: "04" is kept as 4. */
  lemma LeadingZeroLost(cs: CharClasses)
    requires cs.Valid() && cs.maxDigits >= 2
    ensures Lowered("04") && Normalize(cs, "04") == Some(Normalized(NUMBER_MARK, [], [4], NO_CATEGORIES))
    ensures Restored(Normalized(NUMBER_MARK, [], [4], NO_CATEGORIES)) == "4" != "04"
  {
    NoQuotesUntouched("04");
    ScanLeadingZero(cs);
    ReadLeadingZero(cs);
    RestoreFour();
    MarkHasNoDigits(cs);
    NoDigitsNoCategories(cs, NUMBER_MARK);
    assert |"4"| != |"04"|;
  }

  /** Without lowercasing the counts drift: a text may already hold a marker. */
  lemma MarkersInInputDrift(cs: CharClasses)
    requires cs.Valid()
    ensures !Lowered(NUMBER_MARK)
    ensures Normalize(cs, NUMBER_MARK).Some?
    ensures Count(NUMBER_MARK, Normalize(cs, NUMBER_MARK).value.text) != |Normalize(cs, NUMBER_MARK).value.numbers|
  {
    var t := NUMBER_MARK;
    assert t[1] == 'N' && Upper(t[1]);
    MarkUntouched(cs);
    assert t[3..] == "" && Count(t, t) == 1 + Count(t, t[3..]);
  }

  lemma MarkUntouched(cs: CharClasses)
    requires cs.Valid()
    ensures Normalize(cs, NUMBER_MARK) == Some(Normalized(NUMBER_MARK, [], [], NO_CATEGORIES))
  {
    MarkHasNoDigits(cs);
    NoQuotesUntouched(NUMBER_MARK);
    NoDigitsUntouched(cs, false, NUMBER_MARK);
    NoDigitsNoCategories(cs, NUMBER_MARK);
  }

  lemma MarkHasNoDigits(cs: CharClasses)
    requires cs.Valid()
    ensures forall i :: 0 <= i < |NUMBER_MARK| ==> NUMBER_MARK[i] != QUOTE && !cs.digit(NUMBER_MARK[i])
  {
    assert NAME_MARK[0] == OPEN && NAME_MARK[10] == CLOSE && NAME_MARK[6] == 'N';
  }

  lemma {:induction false} NoDigitsUntouched(cs: CharClasses, inWord: bool, t: string)
    requires forall i :: 0 <= i < |t| ==> !cs.digit(t[i])
    ensures ScanNumbers(cs, inWord, t) == (t, [])
    decreases |t|
  {
    if |t| > 0 {
      NoDigitsUntouched(cs, cs.word(t[0]), t[1..]);
      assert t == [t[0]] + t[1..];
    }
  }

  // ----- _params_for_fragment -----

  /** One bucket of `_params_for_fragment`. Python slices clamp, and a fragment that is not
      found gets the whole bucket. */
  function ParamSlice<T>(marker: string, fragment: string, source: string, values: seq<T>): seq<T>
    requires |marker| > 0
  {
    var at := Find(source, fragment);
    if at.None? then values
    else if Count(marker, fragment) == 0 then []
    else
      var offset := Count(marker, source[..at.value]);
      var count := Count(marker, fragment);
      if offset >= |values| then []
      else if offset + count >= |values| then values[offset..]
      else values[offset..offset + count]
  }

  /** Every fragment found in the source gets exactly one value per marker. */
  lemma SliceMatchesMarkers<T>(marker: string, fragment: string, source: string, values: seq<T>)
    requires Unbordered(marker)
    requires Find(source, fragment).Some?
    requires |values| == Count(marker, source)
    ensures |ParamSlice(marker, fragment, source, values)| == Count(marker, fragment)
  {
    var at := Find(source, fragment).value;
    InsideOccurrences(marker, source, at, fragment);
    CountIsOccurrences(marker, source);
    CountIsOccurrences(marker, source[..at]);
    CountIsOccurrences(marker, fragment);
  }

  lemma InsideOccurrences(m: string, source: string, at: nat, fragment: string)
    requires |m| > 0 && at <= |source| && fragment <= source[at..]
    ensures Occurrences(m, source) >= Occurrences(m, source[..at]) + Occurrences(m, fragment)
  {
    var before, after := source[..at], source[at + |fragment|..];
    assert source == before + (fragment + after);
    OccurrencesSplit(m, before, fragment + after);
    OccurrencesSplit(m, fragment, after);
  }

  // ----- whose values a fragment gets -----

  /** No marker begins before position `i` and ends after it. */
  predicate Whole(m: string, t: string, i: nat)
    requires i <= |t|
  {
    forall k :: 0 <= k < i && m <= t[k..] ==> k + |m| <= i
  }

  /** The values captured for the markers of `t[at..at + |fragment|]`: the markers starting
      earlier take the values before them. */
  ghost predicate IsOwnSlice<T>(marker: string, fragment: string, source: string, at: nat, values: seq<T>,
                                slice: seq<T>)
    requires at <= |source|
  {
    var skipped := Occurrences(marker, source) - Occurrences(marker, source[at..]);
    var count := Occurrences(marker, fragment);
    0 <= skipped && skipped + count <= |values| && slice == values[skipped..skipped + count]
  }

  lemma {:induction false} WholeSplit(m: string, a: string, b: string)
    requires |m| > 0 && Whole(m, a + b, |a|)
    ensures Occurrences(m, a + b) == Occurrences(m, a) + Occurrences(m, b)
    decreases |a|
  {
    if |a| == 0 {
      assert a + b == b;
    } else {
      var t := a + b;
      assert t[0..] == t;
      assert t[1..] == a[1..] + b;
      forall k | 0 <= k < |a| - 1 && m <= t[1..][k..] ensures k + |m| <= |a| - 1 {
        assert t[1..][k..] == t[k + 1..];
      }
      WholeSplit(m, a[1..], b);
      if m <= t { assert m == t[..|m|] == a[..|m|]; }
    }
  }

  lemma {:induction false} OccurrencesShrink(m: string, t: string, p: nat, q: nat)
    requires p <= q <= |t|
    ensures Occurrences(m, t[p..]) >= Occurrences(m, t[q..])
    ensures (exists i :: p <= i < q && m <= t[i..]) ==> Occurrences(m, t[p..]) > Occurrences(m, t[q..])
    decreases q - p
  {
    if p < q {
      assert t[p..][1..] == t[p + 1..];
      OccurrencesShrink(m, t, p + 1, q);
    }
  }

  lemma {:induction false} OccurrencesFind(m: string, t: string)
    requires |m| > 0
    ensures Occurrences(m, t) > 0 ==> Find(t, m).Some?
    decreases |t|
  {
    if Occurrences(m, t) > 0 {
      assert t[0..] == t;
      if !(m <= t) {
        OccurrencesFind(m, t[1..]);
        var k := Find(t[1..], m).value;
        assert t[1..][k..] == t[k + 1..];
      }
    }
  }

  /** A fragment that occurs at two places has a marker starting between them. */
  lemma MarkerBetween(m: string, fragment: string, source: string, f: nat, p: nat)
    requires |m| > 0 && Occurrences(m, fragment) > 0
    requires f < p <= |source| && fragment <= source[f..] && fragment <= source[p..]
    ensures exists i :: f <= i < p && m <= source[i..]
  {
    OccurrencesFind(m, fragment);
    var o := Find(fragment, m).value;
    MarkInside(m, fragment, source, f, o);
    forall k | p <= k < p + o ensures !(m <= source[k..]) { MarkInside(m, fragment, source, p, k - p); }
    assert f + o < p;
  }

  lemma MarkInside(m: string, fragment: string, source: string, f: nat, o: nat)
    requires f <= |source| && fragment <= source[f..] && o <= |fragment|
    requires o + |m| <= |fragment|
    ensures m <= fragment[o..] <==> m <= source[f + o..]
  {
    assert source[f..][..|fragment|] == fragment;
    assert fragment[o..][..|m|] == source[f + o..][..|m|];
  }

  lemma {:induction false} SliceAtFind<T>(marker: string, fragment: string, source: string, values: seq<T>)
    requires Unbordered(marker)
    requires Find(source, fragment).Some? && Count(marker, fragment) > 0
    requires Whole(marker, source, Find(source, fragment).value)
    requires |values| == Count(marker, source)
    ensures IsOwnSlice(marker, fragment, source, Find(source, fragment).value, values,
                       ParamSlice(marker, fragment, source, values))
  {
    var at := Find(source, fragment).value;
    WholeCounts(marker, fragment, source, at);
    CountIsOccurrences(marker, source);
    CountIsOccurrences(marker, source[..at]);
    CountIsOccurrences(marker, fragment);
  }

  lemma {:induction false} WholeCounts(marker: string, fragment: string, source: string, at: nat)
    requires Unbordered(marker) && at <= |source| && fragment <= source[at..] && Whole(marker, source, at)
    ensures Occurrences(marker, source) == Occurrences(marker, source[..at]) + Occurrences(marker, source[at..])
    ensures Occurrences(marker, source[at..]) >= Occurrences(marker, fragment)
  {
    var before, rest := source[..at], source[at..];
    assert source == before + rest;
    WholeSplit(marker, before, rest);
    var after := rest[|fragment|..];
    assert rest == fragment + after;
    OccurrencesSplit(marker, fragment, after);
  }

  /** Captured values are 0, 1, 2, ...; a later place's own slice then starts at a larger number. */
  lemma LaterPlaceDiffers(marker: string, fragment: string, source: string, p: nat, values: seq<nat>)
    requires Unbordered(marker) && Count(marker, fragment) > 0
    requires p <= |source| && fragment <= source[p..]
    requires Find(source, fragment).Some? && Whole(marker, source, Find(source, fragment).value)
    requires Find(source, fragment).value < p
    requires |values| == Count(marker, source) && forall i :: 0 <= i < |values| ==> values[i] == i
    ensures !IsOwnSlice(marker, fragment, source, p, values, ParamSlice(marker, fragment, source, values))
  {
    var f := Find(source, fragment).value;
    SliceAtFind(marker, fragment, source, values);
    CountIsOccurrences(marker, fragment);
    MarkerBetween(marker, fragment, source, f, p);
    OccurrencesShrink(marker, source, f, p);
    var slice := ParamSlice(marker, fragment, source, values);
    assert slice[0] == Occurrences(marker, source) - Occurrences(marker, source[f..]);
  }

  /** The lookup goes by text, not by place. For a fragment cut out at `p`, the slice is
      the fragment's own, whatever was captured, exactly when `p` is the first place the
      fragment's text occurs: a repeated fragment gets the first one's values. */
  lemma OwnSliceExactlyAtFirst(marker: string, fragment: string, source: string, p: nat)
    requires Unbordered(marker) && Count(marker, fragment) > 0
    requires p <= |source| && fragment <= source[p..]
    requires Whole(marker, source, p)
    requires Find(source, fragment).Some? && Whole(marker, source, Find(source, fragment).value)
    ensures Find(source, fragment) == Some(p) <==>
      forall values: seq<nat> :: |values| == Count(marker, source) ==>
        IsOwnSlice(marker, fragment, source, p, values, ParamSlice(marker, fragment, source, values))
  {
    if Find(source, fragment).value == p {
      forall values: seq<nat> | |values| == Count(marker, source)
        ensures IsOwnSlice(marker, fragment, source, p, values, ParamSlice(marker, fragment, source, values))
      {
        SliceAtFind(marker, fragment, source, values);
      }
    } else {
      var values := seq(Count(marker, source), i requires i >= 0 => i as nat);
      LaterPlaceDiffers(marker, fragment, source, p, values);
    }
  }
}

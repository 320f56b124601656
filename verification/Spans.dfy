/** What normalisation captures, said of the places in the text: `normalize.py`, with its patterns
    `"([^"]+)"`, `\b\d+\b` and `\blevel\s+(\d+)` read as sets of matches. */
module Spans {
  import opened Markers
  import opened Numerals
  import opened Sequences
  import opened Wrappers

  /** From `begin` to before `end`. */
  datatype Span = Span(begin: nat, end: nat)

  // ----- the matches of a pattern -----

  ghost predicate Boundary(cs: CharClasses, t: string, p: nat)
    requires p <= |t|
  {
    (p > 0 && cs.word(t[p - 1])) != (p < |t| && cs.word(t[p]))
  }

  /** A quote, one or more other characters, a quote. */
  ghost predicate NameAt(t: string, p: nat, q: nat) {
    && p + 2 < q <= |t| && t[p] == '\"' && t[q - 1] == '\"'
    && forall i :: p < i < q - 1 ==> t[i] != '\"'
  }

  /** One or more digits between word boundaries. */
  ghost predicate NumberAt(cs: CharClasses, t: string, p: nat, q: nat) {
    && p < q <= |t| && Boundary(cs, t, p) && Boundary(cs, t, q)
    && forall i :: p <= i < q ==> cs.digit(t[i])
  }

  ghost predicate NoneBegins(matches: set<Span>, from: nat, to: nat) {
    forall m :: m in matches ==> !(from <= m.begin < to)
  }

  /** The leftmost match from `from` on, then the leftmost one from its end on, until there is none. */
  ghost predicate Scans(spans: seq<Span>, from: nat, t: string, matches: set<Span>)
    decreases |spans|
  {
    if |spans| == 0 then NoneBegins(matches, from, |t|)
    else
      var first := spans[0];
      && from <= first.begin < first.end <= |t| && first in matches && NoneBegins(matches, from, first.begin)
      && Scans(spans[1..], first.end, t, matches)
  }

  /** The texts are those of the spans without `edge` characters at either end. */
  ghost predicate Captured(texts: seq<string>, spans: seq<Span>, edge: nat, t: string)
    decreases |spans|
  {
    && |texts| == |spans|
    && (|spans| > 0 ==>
          && spans[0].begin + edge <= spans[0].end - edge <= spans[0].end <= |t|
          && texts[0] == t[spans[0].begin + edge..spans[0].end - edge]
          && Captured(texts[1..], spans[1..], edge, t))
  }

  /** The text from `from` on with each span replaced by the mark. */
  ghost function Assembled(t: string, spans: seq<Span>, from: nat, mark: string): string
    decreases |spans|
  {
    if |spans| == 0 then (if from <= |t| then t[from..] else "")
    else
      var first := spans[0];
      (if from <= first.begin <= |t| then t[from..first.begin] else "") + mark
      + Assembled(t, spans[1..], first.end, mark)
  }

  lemma {:induction false} AssembledStep(t: string, spans: seq<Span>, from: nat, mark: string)
    requires from < |t|
    requires |spans| > 0 ==> from + 1 <= spans[0].begin <= |t|
    ensures Assembled(t, spans, from, mark) == [t[from]] + Assembled(t, spans, from + 1, mark)
  {
    if |spans| == 0 {
      assert t[from..] == [t[from]] + t[from + 1..];
    } else {
      var first := spans[0];
      var later := Assembled(t, spans[1..], first.end, mark);
      assert t[from..first.begin] == [t[from]] + t[from + 1..first.begin];
      Reassociate([t[from]], t[from + 1..first.begin], mark);
      Reassociate([t[from]], t[from + 1..first.begin] + mark, later);
    }
  }

  lemma {:induction false} AssembledMark(t: string, from: nat, q: nat, rest: seq<Span>, mark: string)
    requires from < q <= |t|
    ensures Assembled(t, [Span(from, q)] + rest, from, mark) == mark + Assembled(t, rest, q, mark)
  {
    assert ([Span(from, q)] + rest)[1..] == rest;
    assert t[from..from] == "";
  }

  /** A match in front of the scan from its end on. */
  lemma {:induction false} ScanMatch(from: nat, q: nat, rest: seq<Span>, t: string, matches: set<Span>)
    requires Scans(rest, q, t, matches) && from < q <= |t| && Span(from, q) in matches
    ensures Scans([Span(from, q)] + rest, from, t, matches)
  {
    assert ([Span(from, q)] + rest)[1..] == rest;
  }

  /** No match begins here: the scan of the rest is the scan. */
  lemma {:induction false} ScanStep(from: nat, spans: seq<Span>, t: string, matches: set<Span>)
    requires Scans(spans, from + 1, t, matches) && NoneBegins(matches, from, from + 1)
    ensures Scans(spans, from, t, matches)
  {
  }

  lemma {:induction false} CaptureMatch(
      text: string, texts: seq<string>, from: nat, q: nat, rest: seq<Span>, edge: nat, t: string)
    requires Captured(texts, rest, edge, t) && from + edge <= q - edge <= q <= |t|
    requires text == t[from + edge..q - edge]
    ensures Captured([text] + texts, [Span(from, q)] + rest, edge, t)
  {
    assert ([Span(from, q)] + rest)[1..] == rest && ([text] + texts)[1..] == texts;
  }

  // ----- quoted names -----

  ghost function Names(t: string): set<Span> {
    set p: nat, q: nat | p < |t| && q <= |t| && NameAt(t, p, q) :: Span(p, q)
  }

  lemma {:induction false} NameFound(t: string, from: nat, q: nat)
    requires NameAt(t, from, q)
    ensures NameHere(t[from..]) && q == from + NextQuote(t[from..], 1) + 1
  {
    var u := t[from..];
    var j := NextQuote(u, 1);
    var last := q - 1 - from;
    assert u[last] == t[q - 1] && u[0] == t[from];
    assert forall k :: 1 <= k < last ==> u[k] == t[from + k];
  }

  lemma {:induction false} NameMade(t: string, from: nat)
    requires from < |t| && NameHere(t[from..])
    ensures NameAt(t, from, from + NextQuote(t[from..], 1) + 1)
  {
    var u := t[from..];
    var j := NextQuote(u, 1);
    assert u[0] == t[from] && u[j] == t[from + j];
    forall i | from < i < from + j ensures t[i] != '\"' { assert t[i] == u[i - from]; }
  }

  /** Scanned from `from` on: the text put together again and the names found. */
  ghost predicate NamesRead(spans: seq<Span>, from: nat, t: string, text: string, names: seq<string>) {
    && Scans(spans, from, t, Names(t)) && text == Assembled(t, spans, from, "【CARD_NAME】")
    && Captured(names, spans, 1, t)
  }

  lemma {:induction false} NameTaken(t: string, from: nat, q: nat, rest: seq<Span>, text: string, names: seq<string>)
    requires NameAt(t, from, q) && NamesRead(rest, q, t, text, names)
    ensures NamesRead([Span(from, q)] + rest, from, t, "【CARD_NAME】" + text, [t[from + 1..q - 1]] + names)
  {
    assert Span(from, q) in Names(t);
    ScanMatch(from, q, rest, t, Names(t));
    AssembledMark(t, from, q, rest, "【CARD_NAME】");
    CaptureMatch(t[from + 1..q - 1], names, from, q, rest, 1, t);
  }

  lemma {:induction false} NamePassed(t: string, from: nat, spans: seq<Span>, text: string, names: seq<string>)
    requires from < |t| && !NameHere(t[from..]) && NamesRead(spans, from + 1, t, text, names)
    ensures NamesRead(spans, from, t, [t[from]] + text, names)
  {
    forall m | m in Names(t) ensures m.begin != from { if m.begin == from { NameFound(t, from, m.end); } }
    ScanStep(from, spans, t, Names(t));
    AssembledStep(t, spans, from, "【CARD_NAME】");
  }

  lemma {:induction false} NamesScanned(t: string, from: nat) returns (spans: seq<Span>)
    requires from <= |t|
    ensures NamesRead(spans, from, t, ExtractNames(t[from..]).0, ExtractNames(t[from..]).1)
    decreases |t| - from
  {
    var u := t[from..];
    if from == |t| {
      spans := [];
    } else if NameHere(u) {
      var j := NextQuote(u, 1);
      var q := from + j + 1;
      NameMade(t, from);
      var rest := NamesScanned(t, q);
      assert u[j + 1..] == t[q..] && u[1..j] == t[from + 1..q - 1];
      NameTaken(t, from, q, rest, ExtractNames(t[q..]).0, ExtractNames(t[q..]).1);
      spans := [Span(from, q)] + rest;
    } else {
      spans := NamesScanned(t, from + 1);
      assert u[1..] == t[from + 1..] && u[0] == t[from];
      NamePassed(t, from, spans, ExtractNames(t[from + 1..]).0, ExtractNames(t[from + 1..]).1);
    }
  }

  // ----- numbers -----

  ghost function Numbers(cs: CharClasses, t: string): set<Span> {
    set p: nat, q: nat | p < |t| && q <= |t| && NumberAt(cs, t, p, q) :: Span(p, q)
  }

  ghost predicate Borders(cs: CharClasses, t: string, from: nat, inWord: bool)
    requires from <= |t|
  {
    inWord == (from > 0 && cs.word(t[from - 1]))
  }

  lemma {:induction false} RunLength(cs: CharClasses, t: string, n: nat)
    requires n <= |t| && (forall i :: 0 <= i < n ==> cs.digit(t[i])) && (n < |t| ==> !cs.digit(t[n]))
    ensures DigitRun(cs, t) == n
    decreases |t|
  {
    if n > 0 { RunLength(cs, t[1..], n - 1); }
  }

  lemma {:induction false} NumberFound(cs: CharClasses, t: string, from: nat, inWord: bool, q: nat)
    requires cs.Apart() && from < |t| && Borders(cs, t, from, inWord) && NumberAt(cs, t, from, q)
    ensures NumberHere(cs, inWord, t[from..]) && q == from + DigitRun(cs, t[from..])
  {
    var u := t[from..];
    assert forall i :: 0 <= i < q - from ==> u[i] == t[from + i];
    assert cs.digit(t[q - 1]) && cs.digit(t[from]);
    if q < |t| { assert u[q - from] == t[q]; }
    RunLength(cs, u, q - from);
  }

  lemma {:induction false} NumberMade(cs: CharClasses, t: string, from: nat, inWord: bool)
    requires cs.Apart() && from < |t| && Borders(cs, t, from, inWord) && NumberHere(cs, inWord, t[from..])
    ensures NumberAt(cs, t, from, from + DigitRun(cs, t[from..]))
  {
    var u := t[from..];
    var n := DigitRun(cs, u);
    forall i | from <= i < from + n ensures cs.digit(t[i]) { assert t[i] == u[i - from]; }
    assert cs.digit(t[from]) && cs.digit(t[from + n - 1]);
    if n < |u| { assert u[n] == t[from + n]; }
  }

  ghost predicate NumbersRead(
      cs: CharClasses, spans: seq<Span>, from: nat, t: string, text: string, runs: seq<string>) {
    && Scans(spans, from, t, Numbers(cs, t)) && text == Assembled(t, spans, from, "【N】")
    && Captured(runs, spans, 0, t)
  }

  lemma {:induction false} NumberTaken(
      cs: CharClasses, t: string, from: nat, q: nat, rest: seq<Span>, text: string, runs: seq<string>)
    requires NumberAt(cs, t, from, q) && NumbersRead(cs, rest, q, t, text, runs)
    ensures NumbersRead(cs, [Span(from, q)] + rest, from, t, "【N】" + text, [t[from..q]] + runs)
  {
    assert Span(from, q) in Numbers(cs, t);
    ScanMatch(from, q, rest, t, Numbers(cs, t));
    AssembledMark(t, from, q, rest, "【N】");
    CaptureMatch(t[from..q], runs, from, q, rest, 0, t);
  }

  lemma {:induction false} NumberPassed(
      cs: CharClasses, t: string, from: nat, inWord: bool, spans: seq<Span>, text: string, runs: seq<string>)
    requires cs.Apart() && from < |t| && Borders(cs, t, from, inWord) && !NumberHere(cs, inWord, t[from..])
    requires NumbersRead(cs, spans, from + 1, t, text, runs)
    ensures NumbersRead(cs, spans, from, t, [t[from]] + text, runs)
  {
    forall m | m in Numbers(cs, t) ensures m.begin != from {
      if m.begin == from { NumberFound(cs, t, from, inWord, m.end); }
    }
    ScanStep(from, spans, t, Numbers(cs, t));
    AssembledStep(t, spans, from, "【N】");
  }

  lemma {:induction false} NumberFirst(cs: CharClasses, inWord: bool, u: string, run: string, rest: string)
    requires NumberHere(cs, inWord, u) && |run| == DigitRun(cs, u) && u == run + rest
    ensures var r := ScanNumbers(cs, true, rest);
      ScanNumbers(cs, inWord, u) == ("【N】" + r.0, [run] + r.1)
  {
    var n := |run|;
    assert u[n..] == rest && u[..n] == run;
  }

  lemma CutOnce(t: string, from: nat, q: nat)
    requires from <= q <= |t|
    ensures t[from..] == t[from..q] + t[q..]
  {
  }

  lemma {:induction false} NumbersBegin(
      cs: CharClasses, t: string, from: nat, inWord: bool, q: nat, rest: seq<Span>)
    requires from < q <= |t| && NumberHere(cs, inWord, t[from..]) && q == from + DigitRun(cs, t[from..])
    requires NumberAt(cs, t, from, q)
    requires var r := ScanNumbers(cs, true, t[q..]); NumbersRead(cs, rest, q, t, r.0, r.1)
    ensures var r := ScanNumbers(cs, inWord, t[from..]); NumbersRead(cs, [Span(from, q)] + rest, from, t, r.0, r.1)
  {
    var r := ScanNumbers(cs, true, t[q..]);
    CutOnce(t, from, q);
    NumberFirst(cs, inWord, t[from..], t[from..q], t[q..]);
    NumberTaken(cs, t, from, q, rest, r.0, r.1);
  }

  lemma {:induction false} NumbersScanned(cs: CharClasses, t: string, from: nat, inWord: bool)
    returns (spans: seq<Span>)
    requires cs.Apart() && from <= |t| && Borders(cs, t, from, inWord)
    ensures NumbersRead(cs, spans, from, t, ScanNumbers(cs, inWord, t[from..]).0, ScanNumbers(cs, inWord, t[from..]).1)
    decreases |t| - from
  {
    var u := t[from..];
    if from == |t| {
      spans := [];
    } else if NumberHere(cs, inWord, u) {
      var q := from + DigitRun(cs, u);
      NumberMade(cs, t, from, inWord);
      assert cs.digit(t[q - 1]);
      var rest := NumbersScanned(cs, t, q, true);
      NumbersBegin(cs, t, from, inWord, q, rest);
      spans := [Span(from, q)] + rest;
    } else {
      var behind := cs.word(t[from]);
      spans := NumbersScanned(cs, t, from + 1, behind);
      assert u[1..] == t[from + 1..] && u[0] == t[from];
      var r := ScanNumbers(cs, behind, t[from + 1..]);
      NumberPassed(cs, t, from, inWord, spans, r.0, r.1);
    }
  }

  // ----- categories -----

  /** The word between a boundary and one or more blanks up to `a`, then digits as far as they go. */
  ghost predicate CategoryAt(cs: CharClasses, word: string, t: string, p: nat, a: nat, q: nat) {
    && p + |word| < a < q <= |t| && Boundary(cs, t, p) && word <= t[p..]
    && (forall i :: p + |word| <= i < a ==> cs.space(t[i]))
    && (forall i :: a <= i < q ==> cs.digit(t[i])) && (q < |t| ==> !cs.digit(t[q]))
  }

  ghost predicate CategoryUpto(cs: CharClasses, word: string, t: string, p: nat, q: nat) {
    exists a: nat :: CategoryAt(cs, word, t, p, a, q)
  }

  ghost function CategoriesOf(cs: CharClasses, word: string, t: string): set<Span> {
    set p: nat, q: nat | p < |t| && q <= |t| && CategoryUpto(cs, word, t, p, q) :: Span(p, q)
  }

  lemma {:induction false} SpaceLength(cs: CharClasses, t: string, n: nat)
    requires n <= |t| && (forall i :: 0 <= i < n ==> cs.space(t[i])) && (n < |t| ==> !cs.space(t[n]))
    ensures SpaceRun(cs, t) == n
  {
    if n > 0 { SpaceLength(cs, t[1..], n - 1); }
  }

  lemma {:induction false} BlanksFound(cs: CharClasses, word: string, t: string, from: nat, a: nat)
    requires cs.Apart() && from + |word| < a < |t| && cs.digit(t[a])
    requires forall i :: from + |word| <= i < a ==> cs.space(t[i])
    ensures SpaceRun(cs, t[from..][|word|..]) == a - from - |word|
  {
    var after := t[from..][|word|..];
    var spaces := a - from - |word|;
    forall i | 0 <= i < spaces ensures cs.space(after[i]) { assert after[i] == t[from + |word| + i]; }
    assert after[spaces] == t[a];
    SpaceLength(cs, after, spaces);
  }

  lemma {:induction false} DigitsFound(cs: CharClasses, t: string, a: nat, q: nat)
    requires a <= q <= |t| && (forall i :: a <= i < q ==> cs.digit(t[i])) && (q < |t| ==> !cs.digit(t[q]))
    ensures DigitRun(cs, t[a..]) == q - a
  {
    var digits := t[a..];
    assert forall i :: 0 <= i < q - a ==> digits[i] == t[a + i];
    if q < |t| { assert digits[q - a] == t[q]; }
    RunLength(cs, digits, q - a);
  }

  lemma {:induction false} CategoryFound(
      cs: CharClasses, word: string, t: string, from: nat, inWord: bool, a: nat, q: nat)
    requires cs.Apart() && from < |t| && |word| > 0 && Borders(cs, t, from, inWord)
    requires CategoryAt(cs, word, t, from, a, q)
    ensures CategoryDigits(cs, word, inWord, t[from..]).Some?
  {
    var u := t[from..];
    assert u[0] == t[from] && u[a - from..] == t[a..];
    BlanksFound(cs, word, t, from, a);
    DigitsFound(cs, t, a, q);
  }

  lemma {:induction false} CategoryMade(
      cs: CharClasses, word: string, t: string, from: nat, inWord: bool, a: nat, q: nat)
    requires cs.Apart() && from < a <= q <= |t| && Borders(cs, t, from, inWord)
    requires CategoryDigits(cs, word, inWord, t[from..]) == Some(a - from) && q == a + DigitRun(cs, t[a..])
    ensures CategoryAt(cs, word, t, from, a, q)
  {
    var u := t[from..];
    CutTwice(t, from, a, q);
    assert u[0] == t[from];
    assert u[|word|..] == t[from + |word|..];
    CategoryParts(cs, word, t, from, a, q);
  }

  lemma {:induction false} CategoryParts(cs: CharClasses, word: string, t: string, from: nat, a: nat, q: nat)
    requires from + |word| < a < q <= |t| && Boundary(cs, t, from) && word <= t[from..]
    requires a == from + |word| + SpaceRun(cs, t[from + |word|..]) && q == a + DigitRun(cs, t[a..])
    ensures CategoryAt(cs, word, t, from, a, q)
  {
    BlanksMade(cs, t, from + |word|);
    DigitsMade(cs, t, a);
  }

  lemma {:induction false} BlanksMade(cs: CharClasses, t: string, b: nat)
    requires b <= |t|
    ensures forall i :: b <= i < b + SpaceRun(cs, t[b..]) ==> cs.space(t[i])
  {
    forall i | b <= i < b + SpaceRun(cs, t[b..]) ensures cs.space(t[i]) { assert t[i] == t[b..][i - b]; }
  }

  lemma {:induction false} DigitsMade(cs: CharClasses, t: string, a: nat)
    requires a <= |t|
    ensures var q := a + DigitRun(cs, t[a..]);
      (forall i :: a <= i < q ==> cs.digit(t[i])) && (q < |t| ==> !cs.digit(t[q]))
  {
    var q := a + DigitRun(cs, t[a..]);
    forall i | a <= i < q ensures cs.digit(t[i]) { assert t[i] == t[a..][i - a]; }
    if q < |t| { assert t[q] == t[a..][q - a]; }
  }

  /** The digits read at a span, up to its end. */
  ghost predicate DigitsOf(cs: CharClasses, word: string, t: string, span: Span, run: string) {
    exists a: nat :: CategoryAt(cs, word, t, span.begin, a, span.end) && run == t[a..span.end]
  }

  ghost predicate DigitsRead(cs: CharClasses, word: string, t: string, spans: seq<Span>, captures: seq<Capture>)
    decreases |spans|
  {
    && |captures| == |spans|
    && (|spans| > 0 ==>
          && DigitsOf(cs, word, t, spans[0], captures[0].run)
          && DigitsRead(cs, word, t, spans[1..], captures[1..]))
  }

  ghost predicate CategoriesRead(
      cs: CharClasses, word: string, spans: seq<Span>, from: nat, t: string, captures: seq<Capture>) {
    Scans(spans, from, t, CategoriesOf(cs, word, t)) && DigitsRead(cs, word, t, spans, captures)
  }

  lemma {:induction false} CategoryTaken(
      cs: CharClasses, word: string, t: string, from: nat, a: nat, q: nat, rest: seq<Span>, head: Capture,
      captures: seq<Capture>)
    requires CategoryAt(cs, word, t, from, a, q) && CategoriesRead(cs, word, rest, q, t, captures)
    requires head.run == t[a..q]
    ensures CategoriesRead(cs, word, [Span(from, q)] + rest, from, t, [head] + captures)
  {
    var spans := [Span(from, q)] + rest;
    assert CategoryUpto(cs, word, t, from, q);
    assert Span(from, q) in CategoriesOf(cs, word, t);
    ScanMatch(from, q, rest, t, CategoriesOf(cs, word, t));
    assert DigitsOf(cs, word, t, Span(from, q), head.run);
    assert spans[1..] == rest && ([head] + captures)[1..] == captures;
  }

  lemma {:induction false} CategoryPassed(
      cs: CharClasses, word: string, t: string, from: nat, inWord: bool, spans: seq<Span>, captures: seq<Capture>)
    requires cs.Apart() && |word| > 0 && from < |t| && Borders(cs, t, from, inWord)
    requires CategoryDigits(cs, word, inWord, t[from..]).None?
    requires CategoriesRead(cs, word, spans, from + 1, t, captures)
    ensures CategoriesRead(cs, word, spans, from, t, captures)
  {
    forall m | m in CategoriesOf(cs, word, t) ensures m.begin != from {
      if m.begin == from {
        assert CategoryUpto(cs, word, t, from, m.end);
        var a: nat :| CategoryAt(cs, word, t, from, a, m.end);
        CategoryFound(cs, word, t, from, inWord, a, m.end);
      }
    }
    ScanStep(from, spans, t, CategoriesOf(cs, word, t));
  }

  lemma {:induction false} CaptureFirst(cs: CharClasses, word: string, inWord: bool, u: string, at: nat)
    requires CategoryDigits(cs, word, inWord, u) == Some(at)
    ensures CategoryCaptures(cs, word, inWord, u)
         == [CaptureAt(cs, u, at)] + CategoryCaptures(cs, word, true, Behind(cs, u, at))
  {
  }

  lemma CutTwice(t: string, from: nat, a: nat, q: nat)
    requires from <= a <= q <= |t|
    ensures t[from..][a - from..] == t[a..] && t[from..][q - from..] == t[q..]
    ensures t[from..][a - from..q - from] == t[a..q]
  {
  }

  lemma {:induction false} CapturedDigits(cs: CharClasses, t: string, from: nat, a: nat, q: nat)
    requires from <= a <= q <= |t| && q == a + DigitRun(cs, t[a..])
    ensures CaptureAt(cs, t[from..], a - from).run == t[a..q] && Behind(cs, t[from..], a - from) == t[q..]
  {
    CutTwice(t, from, a, q);
  }

  lemma {:induction false} CaptureHere(
      cs: CharClasses, word: string, t: string, from: nat, inWord: bool, a: nat, q: nat)
    returns (head: Capture)
    requires from < a < q <= |t| && CategoryDigits(cs, word, inWord, t[from..]) == Some(a - from)
    requires q == a + DigitRun(cs, t[a..])
    ensures head.run == t[a..q]
    ensures CategoryCaptures(cs, word, inWord, t[from..]) == [head] + CategoryCaptures(cs, word, true, t[q..])
  {
    CapturedDigits(cs, t, from, a, q);
    CaptureFirst(cs, word, inWord, t[from..], a - from);
    head := CaptureAt(cs, t[from..], a - from);
  }

  lemma {:induction false} CategoriesBegin(
      cs: CharClasses, word: string, t: string, from: nat, inWord: bool, a: nat, q: nat, rest: seq<Span>)
    requires from < a < q <= |t| && CategoryDigits(cs, word, inWord, t[from..]) == Some(a - from)
    requires CategoryAt(cs, word, t, from, a, q) && q == a + DigitRun(cs, t[a..])
    requires CategoriesRead(cs, word, rest, q, t, CategoryCaptures(cs, word, true, t[q..]))
    ensures CategoriesRead(cs, word, [Span(from, q)] + rest, from, t, CategoryCaptures(cs, word, inWord, t[from..]))
  {
    var head := CaptureHere(cs, word, t, from, inWord, a, q);
    CategoryTaken(cs, word, t, from, a, q, rest, head, CategoryCaptures(cs, word, true, t[q..]));
  }

  lemma {:induction false} CategoryEnds(cs: CharClasses, word: string, t: string, from: nat, inWord: bool)
    returns (a: nat, q: nat)
    requires cs.Apart() && from < |t| && |word| > 0 && Borders(cs, t, from, inWord)
    requires CategoryDigits(cs, word, inWord, t[from..]).Some?
    ensures from < a < q <= |t| && CategoryDigits(cs, word, inWord, t[from..]) == Some(a - from)
    ensures CategoryAt(cs, word, t, from, a, q) && q == a + DigitRun(cs, t[a..]) && Borders(cs, t, q, true)
  {
    var at := CategoryDigits(cs, word, inWord, t[from..]).value;
    a := from + at;
    q := a + DigitRun(cs, t[a..]);
    CategoryMade(cs, word, t, from, inWord, a, q);
    BehindDigits(cs, word, t, from, a, q);
  }

  lemma {:induction false} BehindDigits(cs: CharClasses, word: string, t: string, from: nat, a: nat, q: nat)
    requires cs.Apart() && CategoryAt(cs, word, t, from, a, q)
    ensures Borders(cs, t, q, true)
  {
    assert cs.digit(t[q - 1]);
  }

  lemma {:induction false} CategoriesContinue(
      cs: CharClasses, word: string, t: string, from: nat, inWord: bool, spans: seq<Span>)
    requires cs.Apart() && |word| > 0 && from < |t| && Borders(cs, t, from, inWord)
    requires CategoryDigits(cs, word, inWord, t[from..]).None?
    requires CategoriesRead(cs, word, spans, from + 1, t, CategoryCaptures(cs, word, cs.word(t[from]), t[from + 1..]))
    ensures CategoriesRead(cs, word, spans, from, t, CategoryCaptures(cs, word, inWord, t[from..]))
  {
    var u := t[from..];
    assert u[1..] == t[from + 1..] && u[0] == t[from];
    var captures := CategoryCaptures(cs, word, cs.word(t[from]), t[from + 1..]);
    CategoryPassed(cs, word, t, from, inWord, spans, captures);
    assert CategoryCaptures(cs, word, inWord, u) == captures;
  }

  lemma {:induction false} CategoriesScanned(cs: CharClasses, word: string, t: string, from: nat, inWord: bool)
    returns (spans: seq<Span>)
    requires cs.Apart() && |word| > 0 && from <= |t| && Borders(cs, t, from, inWord)
    ensures CategoriesRead(cs, word, spans, from, t, CategoryCaptures(cs, word, inWord, t[from..]))
    decreases |t| - from
  {
    var u := t[from..];
    if from == |t| {
      spans := [];
    } else if CategoryDigits(cs, word, inWord, u).Some? {
      var a, q := CategoryEnds(cs, word, t, from, inWord);
      var rest := CategoriesScanned(cs, word, t, q, true);
      CategoriesBegin(cs, word, t, from, inWord, a, q, rest);
      spans := [Span(from, q)] + rest;
    } else {
      spans := CategoriesScanned(cs, word, t, from + 1, cs.word(t[from]));
      CategoriesContinue(cs, word, t, from, inWord, spans);
    }
  }

  // ----- values kept once -----

  ghost function FirstOnes(values: seq<nat>): set<nat> {
    set k: nat | k < |values| && forall i :: 0 <= i < k ==> values[i] != values[k]
  }

  ghost predicate KeptAt(values: seq<nat>, kept: seq<nat>, picked: seq<nat>) {
    && Picks(picked, FirstOnes(values)) && |kept| == |picked|
    && forall i :: 0 <= i < |picked| ==> picked[i] < |values| && kept[i] == values[picked[i]]
  }

  /** The first occurrence of every value, in order. */
  ghost predicate KeptOnce(values: seq<nat>, kept: seq<nat>) {
    exists picked: seq<nat> :: KeptAt(values, kept, picked)
  }

  lemma {:induction false} OnceHolds(values: seq<nat>, v: nat)
    ensures v in Once(values) <==> v in values
  {
    if |values| > 0 {
      var n := |values| - 1;
      OnceHolds(values[..n], v);
      assert values == values[..n] + [values[n]];
    }
  }

  lemma {:induction false} OnceMeaning(values: seq<nat>)
    ensures KeptOnce(values, Once(values))
  {
    if |values| == 0 {
      assert KeptAt(values, [], []);
    } else {
      var n := |values| - 1;
      var front := Once(values[..n]);
      OnceMeaning(values[..n]);
      OnceHolds(values[..n], values[n]);
      var picked: seq<nat> :| KeptAt(values[..n], front, picked);
      KeptNext(values, front, picked);
    }
  }

  lemma {:induction false} KeptNext(values: seq<nat>, kept: seq<nat>, picked: seq<nat>)
    requires |values| > 0 && KeptAt(values[..|values| - 1], kept, picked)
    ensures var n := |values| - 1; if values[n] in values[..n] then KeptAt(values, kept, picked)
                                   else KeptAt(values, kept + [values[n]], picked + [n])
  {
    var n := |values| - 1;
    FirstOnesGrow(values);
    if values[n] !in values[..n] { PicksOneMore(picked, FirstOnes(values[..n]), n); }
  }

  lemma {:induction false} FirstOnesGrow(values: seq<nat>)
    requires |values| > 0
    ensures var n := |values| - 1;
      FirstOnes(values) == FirstOnes(values[..n]) + (if values[n] in values[..n] then {} else {n})
  {
    var n := |values| - 1;
    var front := values[..n];
    assert forall k: nat :: k < n ==> (k in FirstOnes(values) <==> k in FirstOnes(front));
    assert n in FirstOnes(values) <==> values[n] !in front;
  }

  // ----- normalisation -----

  ghost predicate ValuesOf(cs: CharClasses, runs: seq<string>, values: seq<nat>) {
    |values| == |runs| && forall i :: 0 <= i < |runs| ==> values[i] == ValueOf(cs, runs[i])
  }

  ghost predicate CategoryRead(cs: CharClasses, word: string, text: string, kept: seq<nat>) {
    exists spans, captures: seq<Capture>, values ::
      && CategoriesRead(cs, word, spans, 0, text, captures)
      && ValuesOf(cs, seq(|captures|, i requires 0 <= i < |captures| => captures[i].run), values)
      && KeptOnce(values, kept)
  }

  lemma CategoryScan(cs: CharClasses, word: string, text: string)
    requires cs.Valid() && |word| > 0 && ToInts(cs, CategoryRuns(cs, word, text)).Some?
    ensures CategoryRead(cs, word, text, Once(ToInts(cs, CategoryRuns(cs, word, text)).value))
  {
    var values := ToInts(cs, CategoryRuns(cs, word, text)).value;
    assert text[0..] == text;
    var spans := CategoriesScanned(cs, word, text, 0, false);
    OnceMeaning(values);
    assert ValuesOf(cs, CategoryRuns(cs, word, text), values);
  }

  /** The names are what stands between quotes, left to right; the numbers are the values of the runs
      between word boundaries in the text without those names. */
  ghost predicate TextFrom(cs: CharClasses, lowered: string, text: string, names: seq<string>, numbers: seq<nat>) {
    exists quoted, runs, named, digits: seq<string> ::
      && NamesRead(quoted, 0, lowered, named, names)
      && NumbersRead(cs, runs, 0, named, text, digits) && ValuesOf(cs, digits, numbers)
  }

  /** A level, rank or link is read in the text without those numbers, each value kept once. */
  ghost predicate NormalizedFrom(cs: CharClasses, lowered: string, n: Normalized) {
    && TextFrom(cs, lowered, n.text, n.names, n.numbers)
    && |n.categories| == 3 && CategoryRead(cs, "level", n.text, n.categories[0])
    && CategoryRead(cs, "rank", n.text, n.categories[1]) && CategoryRead(cs, "link", n.text, n.categories[2])
  }

  lemma NormalizeMeaning(cs: CharClasses, lowered: string)
    requires cs.Valid() && Normalize(cs, lowered).Some?
    ensures NormalizedFrom(cs, lowered, Normalize(cs, lowered).value)
  {
    TextRead(cs, lowered);
    CategoriesSplit(cs, MarkedText(cs, lowered));
  }

  lemma TextRead(cs: CharClasses, lowered: string)
    requires cs.Valid() && Normalize(cs, lowered).Some?
    ensures var n := Normalize(cs, lowered).value; TextFrom(cs, lowered, n.text, n.names, n.numbers)
  {
    var n := Normalize(cs, lowered).value;
    var (named, names) := ExtractNames(lowered);
    var (text, digits) := ScanNumbers(cs, false, named);
    assert lowered[0..] == lowered && named[0..] == named;
    var quoted := NamesScanned(lowered, 0);
    var runs := NumbersScanned(cs, named, 0, false);
    assert NamesRead(quoted, 0, lowered, named, names);
    assert NumbersRead(cs, runs, 0, named, text, digits) && ValuesOf(cs, digits, n.numbers);
  }

  lemma CategoriesSplit(cs: CharClasses, text: string)
    requires cs.Valid() && Categories(cs, CATEGORY_WORDS, text).Some?
    ensures var kept := Categories(cs, CATEGORY_WORDS, text).value;
      |kept| == 3 && CategoryRead(cs, "level", text, kept[0]) && CategoryRead(cs, "rank", text, kept[1])
      && CategoryRead(cs, "link", text, kept[2])
  {
    CategoryEach(cs, CATEGORY_WORDS, text);
  }

  lemma {:induction false} CategoryEach(cs: CharClasses, words: seq<string>, text: string)
    requires cs.Valid() && Categories(cs, words, text).Some? && forall w :: w in words ==> |w| > 0
    ensures var kept := Categories(cs, words, text).value;
      forall i :: 0 <= i < |words| ==> CategoryRead(cs, words[i], text, kept[i])
  {
    if |words| > 0 {
      CategoryScan(cs, words[0], text);
      CategoryEach(cs, words[1..], text);
      var kept, later := Categories(cs, words, text).value, Categories(cs, words[1..], text).value;
      forall i | 0 <= i < |words| ensures CategoryRead(cs, words[i], text, kept[i]) {
        if i > 0 { assert words[i] == words[1..][i - 1] && kept[i] == later[i - 1]; }
      }
    }
  }
}

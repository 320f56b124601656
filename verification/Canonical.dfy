/** Canonical JSON text: `engine/canonical.py`.

    Every content identifier of the repository is a hash of this text, so two values may
    share it exactly when they are meant to be the same value. */
module Canonical {
  import opened Order
  import opened Wrappers

  // ----- Python values that reach the serialiser -----

  datatype Scalar = Null | Bool(b: bool) | Int(n: int) | Str(s: string)

  datatype Key = TextKey(text: string) | IntKey(n: int)

  /** A Python value. `Record` is a dataclass instance, `Member` an `Enum` member carrying
      its `.value`. Dict entries stand in insertion order. */
  datatype Value =
    | Leaf(scalar: Scalar)
    | Member(value: Scalar)
    | List(items: seq<Value>)
    | Tuple(elements: seq<Value>)
    | Dict(entries: seq<(Key, Value)>)
    | Record(fields: seq<(string, Value)>)

  /** Plain JSON data, object members in order. */
  datatype Json =
    | Atom(scalar: Scalar)
    | Arr(items: seq<Json>)
    | Obj(members: seq<(string, Json)>)

  // ----- decimal text of an integer -----

  const DIGITS := "0123456789"

  predicate IsDigit(c: char) { '0' <= c <= '9' }

  function Digit(d: nat): (c: char)
    requires d < 10
    ensures IsDigit(c)
  {
    DIGITS[d]
  }

  function NatText(n: nat): (r: string)
    ensures |r| > 0 && forall i :: 0 <= i < |r| ==> IsDigit(r[i])
  {
    if n < 10 then [Digit(n)] else NatText(n / 10) + [Digit(n % 10)]
  }

  /** `str(n)`, which is also how `json.dumps` prints an int. */
  function IntText(n: int): (r: string)
    ensures |r| > 0 && (r[0] == '-' || IsDigit(r[0]))
  {
    if n < 0 then "-" + NatText(-n) else NatText(n)
  }

  lemma {:induction false} NatTextInjective(n: nat, m: nat)
    requires NatText(n) == NatText(m)
    ensures n == m
  {
    var a, b := NatText(n), NatText(m);
    assert a[|a| - 1] == Digit(n % 10) && b[|b| - 1] == Digit(m % 10);
    assert n % 10 == m % 10;
    if n >= 10 && m >= 10 {
      assert a[..|a| - 1] == NatText(n / 10) && b[..|b| - 1] == NatText(m / 10);
      NatTextInjective(n / 10, m / 10);
    }
  }

  lemma IntTextInjective(n: int, m: int)
    requires IntText(n) == IntText(m)
    ensures n == m
  {
    if n < 0 && m < 0 {
      assert IntText(n)[1..] == NatText(-n) && IntText(m)[1..] == NatText(-m);
      NatTextInjective(-n, -m);
    } else if n >= 0 && m >= 0 {
      NatTextInjective(n, m);
    }
  }

  // ----- json.dumps(ensure_ascii=False, separators=(",", ":")) -----

  const HEX := "0123456789abcdef"

  /** The escapes of RFC 8259 section 7 that Python emits with `ensure_ascii=False`. */
  function EscapeChar(c: char): (r: string)
    ensures |r| > 0
  {
    if c == '\"' then "\\\""
    else if c == '\\' then "\\\\"
    else if c == '\n' then "\\n"
    else if c == '\r' then "\\r"
    else if c == '\t' then "\\t"
    else if c == '\U{0C}' then "\\f"
    else if c == '\U{08}' then "\\b"
    else if c < ' ' then "\\u00" + [HEX[c as int / 16], HEX[c as int % 16]]
    else [c]
  }

  // Each emitter writes a value's text in front of `rest`, the text already due after it.

  function EmitEscaped(s: string, rest: string): string {
    if |s| == 0 then rest else EscapeChar(s[0]) + EmitEscaped(s[1..], rest)
  }

  function EmitString(s: string, rest: string): string {
    "\"" + EmitEscaped(s, "\"" + rest)
  }

  function EmitScalar(x: Scalar, rest: string): string {
    match x
    case Null => "null" + rest
    case Bool(b) => if b then "true" + rest else "false" + rest
    case Int(n) => IntText(n) + rest
    case Str(s) => EmitString(s, rest)
  }

  function Emit(j: Json, rest: string): string
    decreases j, 0
  {
    match j
    case Atom(x) => EmitScalar(x, rest)
    case Arr(items) => "[" + EmitItems(items, rest)
    case Obj(members) => "{" + EmitMembers(members, rest)
  }

  function EmitItems(items: seq<Json>, rest: string): string
    decreases items, 1
  {
    if |items| == 0 then "]" + rest
    else Emit(items[0], if |items| == 1 then "]" + rest else "," + EmitItems(items[1..], rest))
  }

  function EmitMembers(members: seq<(string, Json)>, rest: string): string
    decreases members, 1
  {
    if |members| == 0 then "}" + rest
    else EmitMember(members[0], if |members| == 1 then "}" + rest else "," + EmitMembers(members[1..], rest))
  }

  function EmitMember(m: (string, Json), rest: string): string
    decreases m, 1
  {
    EmitString(m.0, ":" + Emit(m.1, rest))
  }

  /** The text of plain data whose members already stand in their final order. */
  function Print(j: Json): string {
    Emit(j, "")
  }

  // ----- the printed text can be read back in only one way -----

  /** What may follow a number: the end of the text, or a character that is no digit. */
  predicate Terminated(s: string) {
    |s| == 0 || !IsDigit(s[0])
  }

  lemma PrefixCancel(p: string, s: string, t: string)
    requires p + s == p + t
    ensures s == t
  {
    assert (p + s)[|p|..] == s && (p + t)[|p|..] == t;
  }

  lemma SplitAt(a: string, b: string, s: string, t: string)
    requires |a| == |b| && a + s == b + t
    ensures a == b && s == t
  {
    assert (a + s)[..|a|] == a && (b + t)[..|a|] == b;
    PrefixCancel(a, s, t);
  }

  lemma {:induction false} DigitRunEnds(a: string, b: string, s: string, t: string)
    requires forall i :: 0 <= i < |b| ==> IsDigit(b[i])
    requires Terminated(s)
    requires a + s == b + t
    ensures |b| <= |a|
  {
    if |a| == 0 {
      assert s == b + t;
    } else if |b| > 0 {
      assert (a + s)[1..] == a[1..] + s && (b + t)[1..] == b[1..] + t;
      DigitRunEnds(a[1..], b[1..], s, t);
    }
  }

  lemma NatPrefix(n: nat, m: nat, s: string, t: string)
    requires Terminated(s) && Terminated(t)
    requires NatText(n) + s == NatText(m) + t
    ensures n == m && s == t
  {
    DigitRunEnds(NatText(n), NatText(m), s, t);
    DigitRunEnds(NatText(m), NatText(n), t, s);
    SplitAt(NatText(n), NatText(m), s, t);
    NatTextInjective(n, m);
  }

  lemma IntPrefix(n: int, m: int, s: string, t: string)
    requires Terminated(s) && Terminated(t)
    requires IntText(n) + s == IntText(m) + t
    ensures n == m && s == t
  {
    SameSign(n, m, s, t);
    if n < 0 {
      NegativePrefix(IntText(n), IntText(m), n, m, s, t);
    } else {
      NatPrefix(n, m, s, t);
    }
  }

  lemma NegativePrefix(a: string, b: string, n: int, m: int, s: string, t: string)
    requires n < 0 && m < 0 && a == IntText(n) && b == IntText(m) && Terminated(s) && Terminated(t)
    requires a + s == b + t
    ensures n == m && s == t
  {
    DropFirst(a, b, s, t);
    assert a[1..] == NatText(-n) && b[1..] == NatText(-m);
    NatPrefix(-n, -m, s, t);
  }

  lemma DropFirst(a: string, b: string, s: string, t: string)
    requires |a| > 0 && |b| > 0 && a + s == b + t
    ensures a[1..] + s == b[1..] + t
  {
    assert (a + s)[1..] == a[1..] + s && (b + t)[1..] == b[1..] + t;
  }

  lemma SameSign(n: int, m: int, s: string, t: string)
    requires IntText(n) + s == IntText(m) + t
    ensures n < 0 <==> m < 0
  {
    assert (IntText(n) + s)[0] == IntText(n)[0];
    assert (IntText(m) + t)[0] == IntText(m)[0];
  }

  /** How long an escape is, read off its first two characters. */
  function EscapeLength(text: string): nat
    requires |text| > 0
  {
    if text[0] != '\\' then 1 else if |text| > 1 && text[1] == 'u' then 6 else 2
  }

  lemma EscapeCharLength(c: char, s: string)
    ensures |EscapeChar(c)| == EscapeLength(EscapeChar(c) + s)
  {
    var e := EscapeChar(c);
    assert (e + s)[0] == e[0];
    if e[0] == '\\' { assert (e + s)[1] == e[1]; }
  }

  lemma EscapeCharInjective(a: char, b: char)
    requires EscapeChar(a) == EscapeChar(b)
    ensures a == b
  {
    var x, y := EscapeChar(a), EscapeChar(b);
    assert x[0] == y[0];
    if x[0] == '\\' {
      assert x[1] == y[1];
      if x[1] == 'u' {
        assert x[4] == HEX[a as int / 16] && y[4] == HEX[b as int / 16];
        assert x[5] == HEX[a as int % 16] && y[5] == HEX[b as int % 16];
        HexInjective(a as int / 16, b as int / 16);
        HexInjective(a as int % 16, b as int % 16);
      }
    }
  }

  lemma HexInjective(i: nat, j: nat)
    requires i < 16 && j < 16 && HEX[i] == HEX[j]
    ensures i == j
  {
  }

  lemma EscapeCharPrefix(a: char, b: char, s: string, t: string)
    requires EscapeChar(a) + s == EscapeChar(b) + t
    ensures a == b && s == t
  {
    EscapeCharLength(a, s);
    EscapeCharLength(b, t);
    SplitAt(EscapeChar(a), EscapeChar(b), s, t);
    EscapeCharInjective(a, b);
  }

  lemma EscapeNeverQuotes(c: char, s: string)
    ensures (EscapeChar(c) + s)[0] != '\"'
  {
  }

  lemma {:induction false} EscapedPrefix(a: string, b: string, s: string, t: string)
    requires EmitEscaped(a, "\"" + s) == EmitEscaped(b, "\"" + t)
    ensures a == b && s == t
  {
    if |a| == 0 {
      if |b| > 0 { EscapeNeverQuotes(b[0], EmitEscaped(b[1..], "\"" + t)); }
      PrefixCancel("\"", s, t);
    } else {
      EscapeNeverQuotes(a[0], EmitEscaped(a[1..], "\"" + s));
      EscapeCharPrefix(a[0], b[0], EmitEscaped(a[1..], "\"" + s), EmitEscaped(b[1..], "\"" + t));
      EscapedPrefix(a[1..], b[1..], s, t);
      assert a == [a[0]] + a[1..] && b == [b[0]] + b[1..];
    }
  }

  lemma StringPrefix(a: string, b: string, s: string, t: string)
    requires EmitString(a, s) == EmitString(b, t)
    ensures a == b && s == t
  {
    PrefixCancel("\"", EmitEscaped(a, "\"" + s), EmitEscaped(b, "\"" + t));
    EscapedPrefix(a, b, s, t);
  }

  /** The first character tells which kind of value follows. */
  datatype Lead = Word | Numeral | Text | OpenList | OpenObject | Other

  function LeadOf(c: char): Lead {
    if c in "ntf" then Word
    else if c == '-' || IsDigit(c) then Numeral
    else if c == '\"' then Text
    else if c == '[' then OpenList
    else if c == '{' then OpenObject
    else Other
  }

  function Kind(j: Json): Lead {
    match j
    case Atom(Null) => Word
    case Atom(Bool(_)) => Word
    case Atom(Int(_)) => Numeral
    case Atom(Str(_)) => Text
    case Arr(_) => OpenList
    case Obj(_) => OpenObject
  }

  lemma EmitLead(j: Json, rest: string)
    ensures |Emit(j, rest)| > 0 && LeadOf(Emit(j, rest)[0]) == Kind(j)
  {
    match j
    case Atom(Int(n)) => assert (IntText(n) + rest)[0] == IntText(n)[0];
    case _ =>
  }

  lemma WordPrefix(a: Scalar, b: Scalar, s: string, t: string)
    requires (a.Null? || a.Bool?) && (b.Null? || b.Bool?)
    requires EmitScalar(a, s) == EmitScalar(b, t)
    ensures a == b && s == t
  {
    var x, y := EmitScalar(a, s), EmitScalar(b, t);
    assert x[0] == y[0];
    if a.Null? {
      PrefixCancel("null", s, t);
    } else if a.b {
      PrefixCancel("true", s, t);
    } else {
      PrefixCancel("false", s, t);
    }
  }

  lemma ScalarPrefix(a: Scalar, b: Scalar, s: string, t: string)
    requires Terminated(s) && Terminated(t)
    requires Kind(Atom(a)) == Kind(Atom(b))
    requires EmitScalar(a, s) == EmitScalar(b, t)
    ensures a == b && s == t
  {
    match a
    case Int(n) => IntPrefix(n, b.n, s, t);
    case Str(x) => StringPrefix(x, b.s, s, t);
    case _ => WordPrefix(a, b, s, t);
  }

  /** No value's text is a proper prefix of another's, whatever legally follows. */
  lemma {:induction false} EmitPrefix(a: Json, b: Json, s: string, t: string)
    requires Terminated(s) && Terminated(t)
    requires Emit(a, s) == Emit(b, t)
    ensures a == b && s == t
    decreases a, 0
  {
    EmitLead(a, s);
    EmitLead(b, t);
    assert Kind(a) == Kind(b);
    match a
    case Atom(x) => ScalarPrefix(x, b.scalar, s, t);
    case Arr(xs) =>
      PrefixCancel("[", EmitItems(xs, s), EmitItems(b.items, t));
      ItemsPrefix(xs, b.items, s, t);
    case Obj(xs) =>
      PrefixCancel("{", EmitMembers(xs, s), EmitMembers(b.members, t));
      MembersPrefix(xs, b.members, s, t);
  }

  function AfterItem(items: seq<Json>, rest: string): string
    requires |items| > 0
  {
    if |items| == 1 then "]" + rest else "," + EmitItems(items[1..], rest)
  }

  lemma ItemsLead(items: seq<Json>, rest: string)
    ensures |EmitItems(items, rest)| > 0
    ensures |items| == 0 <==> EmitItems(items, rest)[0] == ']'
  {
    if |items| > 0 { EmitLead(items[0], AfterItem(items, rest)); }
  }

  lemma {:induction false} ItemsPrefix(xs: seq<Json>, ys: seq<Json>, s: string, t: string)
    requires EmitItems(xs, s) == EmitItems(ys, t)
    ensures xs == ys && s == t
    decreases xs, 1
  {
    ItemsLead(xs, s);
    ItemsLead(ys, t);
    if |xs| == 0 {
      PrefixCancel("]", s, t);
    } else {
      var p, q := AfterItem(xs, s), AfterItem(ys, t);
      EmitPrefix(xs[0], ys[0], p, q);
      assert p[0] == q[0];
      if |xs| == 1 {
        PrefixCancel("]", s, t);
      } else {
        PrefixCancel(",", EmitItems(xs[1..], s), EmitItems(ys[1..], t));
        ItemsPrefix(xs[1..], ys[1..], s, t);
        assert xs == [xs[0]] + xs[1..] && ys == [ys[0]] + ys[1..];
      }
    }
  }

  function AfterMember(members: seq<(string, Json)>, rest: string): string
    requires |members| > 0
  {
    if |members| == 1 then "}" + rest else "," + EmitMembers(members[1..], rest)
  }

  lemma {:induction false} MemberPrefix(x: (string, Json), y: (string, Json), s: string, t: string)
    requires Terminated(s) && Terminated(t)
    requires EmitMember(x, s) == EmitMember(y, t)
    ensures x == y && s == t
    decreases x, 1
  {
    StringPrefix(x.0, y.0, ":" + Emit(x.1, s), ":" + Emit(y.1, t));
    PrefixCancel(":", Emit(x.1, s), Emit(y.1, t));
    EmitPrefix(x.1, y.1, s, t);
  }

  lemma {:induction false} MembersPrefix(xs: seq<(string, Json)>, ys: seq<(string, Json)>, s: string, t: string)
    requires EmitMembers(xs, s) == EmitMembers(ys, t)
    ensures xs == ys && s == t
    decreases xs, 1
  {
    if |xs| == 0 || |ys| == 0 {
      assert |xs| == |ys| by { assert EmitMembers(xs, s)[0] == EmitMembers(ys, t)[0]; }
      PrefixCancel("}", s, t);
    } else {
      var p, q := AfterMember(xs, s), AfterMember(ys, t);
      MemberPrefix(xs[0], ys[0], p, q);
      assert p[0] == q[0];
      if |xs| == 1 {
        PrefixCancel("}", s, t);
      } else {
        PrefixCancel(",", EmitMembers(xs[1..], s), EmitMembers(ys[1..], t));
        MembersPrefix(xs[1..], ys[1..], s, t);
        assert xs == [xs[0]] + xs[1..] && ys == [ys[0]] + ys[1..];
      }
    }
  }

  lemma PrintInjective(a: Json, b: Json)
    ensures Print(a) == Print(b) <==> a == b
  {
    if Print(a) == Print(b) { EmitPrefix(a, b, "", ""); }
  }

  // ----- to_canonical_data -----

  function KeyText(k: Key): string {
    match k
    case TextKey(s) => s
    case IntKey(n) => IntText(n)
  }

  /** Python compares text with text and int with int; `sorted` raises on a mixture. */
  predicate Comparable(a: Key, b: Key) {
    a.TextKey? == b.TextKey?
  }

  predicate KeyLess(a: Key, b: Key)
    requires Comparable(a, b)
  {
    match a
    case TextKey(s) => Less(s, b.text)
    case IntKey(n) => n < b.n
  }

  predicate Sortable<T>(entries: seq<(Key, T)>) {
    forall i, j :: 0 <= i < j < |entries| ==> Comparable(entries[i].0, entries[j].0)
  }

  function InsertEntry<T>(e: (Key, T), s: seq<(Key, T)>): seq<(Key, T)> {
    if |s| > 0 && Comparable(s[0].0, e.0) && KeyLess(s[0].0, e.0) then [s[0]] + InsertEntry(e, s[1..])
    else [e] + s
  }

  function SortEntries<T>(s: seq<(Key, T)>): seq<(Key, T)> {
    if |s| == 0 then [] else InsertEntry(s[0], SortEntries(s[1..]))
  }

  function TextMembers(s: seq<(Key, Json)>): (r: seq<(string, Json)>)
    ensures |r| == |s|
  {
    seq(|s|, i requires 0 <= i < |s| => (KeyText(s[i].0), s[i].1))
  }

  /** `to_canonical_data` on int keys of any length; `None` stands for the TypeError of sorting mixed
      keys. */
  function ToCanonical(v: Value): Option<Json>
    decreases v, 1
  {
    match v
    case Leaf(x) => Some(Atom(x))
    case Member(x) => Some(Atom(x))
    case List(items) =>
      var r := CanonicalItems(items);
      if r.None? then None else Some(Arr(r.value))
    case Tuple(items) =>
      var r := CanonicalItems(items);
      if r.None? then None else Some(Arr(r.value))
    case Dict(entries) =>
      var r := CanonicalEntries(entries);
      if r.None? || !Sortable(entries) then None
      else Some(Obj(TextMembers(SortEntries(r.value))))
    case Record(fields) =>
      var r := CanonicalFields(fields);
      if r.None? then None else Some(Obj(TextMembers(SortEntries(r.value))))
  }

  function CanonicalItems(items: seq<Value>): (r: Option<seq<Json>>)
    decreases items, 0
  {
    if |items| == 0 then Some([])
    else
      var first, rest := ToCanonical(items[0]), CanonicalItems(items[1..]);
      if first.None? || rest.None? then None else Some([first.value] + rest.value)
  }

  function CanonicalEntry(e: (Key, Value)): Option<(Key, Json)>
    decreases e, 2
  {
    var r := ToCanonical(e.1);
    if r.None? then None else Some((e.0, r.value))
  }

  function CanonicalEntries(entries: seq<(Key, Value)>): (r: Option<seq<(Key, Json)>>)
    decreases entries, 0
  {
    if |entries| == 0 then Some([])
    else
      var first, rest := CanonicalEntry(entries[0]), CanonicalEntries(entries[1..]);
      if first.None? || rest.None? then None else Some([first.value] + rest.value)
  }

  function CanonicalField(f: (string, Value)): Option<(Key, Json)>
    decreases f, 2
  {
    var r := ToCanonical(f.1);
    if r.None? then None else Some((TextKey(f.0), r.value))
  }

  function CanonicalFields(fields: seq<(string, Value)>): (r: Option<seq<(Key, Json)>>)
    decreases fields, 0
  {
    if |fields| == 0 then Some([])
    else
      var first, rest := CanonicalField(fields[0]), CanonicalFields(fields[1..]);
      if first.None? || rest.None? then None else Some([first.value] + rest.value)
  }

  function MemberKey(m: (string, Json)): string { m.0 }

  /** The order `json.dumps(sort_keys=True)` imposes at every level. */
  function SortKeys(j: Json): Json
    decreases j, 1
  {
    match j
    case Atom(_) => j
    case Arr(items) => Arr(SortItems(items))
    case Obj(members) => Obj(SortBy(MemberKey, SortMembersWithin(members)))
  }

  function SortItems(items: seq<Json>): (r: seq<Json>)
    ensures |r| == |items|
    decreases items, 0
  {
    if |items| == 0 then [] else [SortKeys(items[0])] + SortItems(items[1..])
  }

  function SortWithin(m: (string, Json)): (string, Json)
    decreases m, 2
  {
    (m.0, SortKeys(m.1))
  }

  function SortMembersWithin(members: seq<(string, Json)>): (r: seq<(string, Json)>)
    ensures |r| == |members|
    decreases members, 0
  {
    if |members| == 0 then [] else [SortWithin(members[0])] + SortMembersWithin(members[1..])
  }

  // ----- the interpreter's limit on the digits of an int -----

  /** An int of more than `limit` digits has no text: `str` and `json.dumps` raise a ValueError. */
  predicate Writable(limit: nat, n: int) {
    |NatText(if n < 0 then -n else n)| <= limit
  }

  predicate ScalarWritable(limit: nat, x: Scalar) { x.Int? ==> Writable(limit, x.n) }

  /** Every int key of every dict inside `v` can be written, as `to_canonical_data` does. */
  predicate KeysWritable(limit: nat, v: Value)
    decreases v
  {
    && (v.Dict? ==> forall i :: 0 <= i < |v.entries| ==> KeyWritable(limit, v.entries[i].0))
    && forall i {:trigger Child(v, i)} :: 0 <= i < Width(v) ==> KeysWritable(limit, Child(v, i))
  }

  predicate KeyWritable(limit: nat, k: Key) { k.IntKey? ==> Writable(limit, k.n) }

  /** Every int inside `j` can be written, as `json.dumps` does. */
  predicate AtomsWritable(limit: nat, j: Json)
    decreases j
  {
    && (j.Atom? ==> ScalarWritable(limit, j.scalar))
    && forall i {:trigger Part(j, i)} :: 0 <= i < Parts(j) ==> AtomsWritable(limit, Part(j, i))
  }

  /** `to_canonical_data` */
  function CanonicalData(limit: nat, v: Value): Option<Json> {
    if KeysWritable(limit, v) then ToCanonical(v) else None
  }

  /** `canonical_json` */
  function CanonicalJson(limit: nat, v: Value): Option<string> {
    var j := CanonicalData(limit, v);
    if j.None? || !AtomsWritable(limit, SortKeys(j.value)) then None else Some(Print(SortKeys(j.value)))
  }

  /** `stable_digest` over an abstract hash of the text. */
  function StableDigest(limit: nat, hash: string -> string, prefix: string, v: Value): Option<string> {
    var t := CanonicalJson(limit, v);
    if t.None? then None else Some(prefix + hash(t.value))
  }

  // ----- which values are meant to be the same -----

  predicate Listlike(v: Value) { v.List? || v.Tuple? }

  predicate Dictlike(v: Value) { v.Dict? || v.Record? }

  function ScalarOf(v: Value): Scalar
    requires !Listlike(v) && !Dictlike(v)
  {
    match v case Leaf(x) => x case Member(x) => x
  }

  function Width(v: Value): nat {
    match v
    case Leaf(_) => 0
    case Member(_) => 0
    case List(items) => |items|
    case Tuple(items) => |items|
    case Dict(entries) => |entries|
    case Record(fields) => |fields|
  }

  function Child(v: Value, i: nat): (c: Value)
    requires i < Width(v)
    ensures c < v
  {
    match v
    case List(items) => items[i]
    case Tuple(items) => items[i]
    case Dict(entries) => entries[i].1
    case Record(fields) => fields[i].1
  }

  function ChildKey(v: Value, i: nat): string
    requires Dictlike(v) && i < Width(v)
  {
    match v
    case Dict(entries) => KeyText(entries[i].0)
    case Record(fields) => fields[i].0
  }

  /** Equal up to dict order, where a tuple counts as a list, a dataclass as the dict of its
      fields, an enum member as its value, and an int key as its decimal text. */
  ghost predicate Equivalent(a: Value, b: Value)
    decreases a, 2
  {
    if Listlike(a) then
      Listlike(b) && Width(a) == Width(b)
      && forall i {:trigger Child(a, i)} :: 0 <= i < Width(a) ==> Equivalent(Child(a, i), Child(b, i))
    else if Dictlike(a) then
      Dictlike(b)
      && (forall i :: 0 <= i < Width(a) ==> HasPartner(a, i, b))
      && (forall j :: 0 <= j < Width(b) ==> IsPartner(a, b, j))
    else
      !Listlike(b) && !Dictlike(b) && ScalarOf(a) == ScalarOf(b)
  }

  /** Entry `i` of `a` and entry `j` of `b` have the same key and equivalent values. */
  ghost predicate Partners(a: Value, i: nat, b: Value, j: nat)
    requires Dictlike(a) && Dictlike(b) && i < Width(a) && j < Width(b)
    decreases a, 0
  {
    ChildKey(a, i) == ChildKey(b, j) && Equivalent(Child(a, i), Child(b, j))
  }

  ghost predicate HasPartner(a: Value, i: nat, b: Value)
    requires Dictlike(a) && Dictlike(b) && i < Width(a)
    decreases a, 1
  {
    exists j :: 0 <= j < Width(b) && Partners(a, i, b, j)
  }

  ghost predicate IsPartner(a: Value, b: Value, j: nat)
    requires Dictlike(a) && Dictlike(b) && j < Width(b)
    decreases a, 1
  {
    exists i :: 0 <= i < Width(a) && Partners(a, i, b, j)
  }

  /** What Python guarantees of a dict or dataclass: no key twice. */
  ghost predicate WellFormed(v: Value)
    decreases v
  {
    && (forall i {:trigger Child(v, i)} :: 0 <= i < Width(v) ==> WellFormed(Child(v, i)))
    && (v.Dict? ==> forall i, j :: 0 <= i < j < |v.entries| ==> v.entries[i].0 != v.entries[j].0)
    && (v.Record? ==> forall i, j :: 0 <= i < j < |v.fields| ==> v.fields[i].0 != v.fields[j].0)
  }

  // ----- what canonicalising does to children -----

  function Norm(v: Value): Json
    requires ToCanonical(v).Some?
  {
    SortKeys(ToCanonical(v).value)
  }

  lemma {:induction false} CanonicalItemsAt(items: seq<Value>)
    ensures CanonicalItems(items).Some? <==> forall i :: 0 <= i < |items| ==> ToCanonical(items[i]).Some?
    ensures CanonicalItems(items).Some? ==>
      && |CanonicalItems(items).value| == |items|
      && forall i :: 0 <= i < |items| ==> CanonicalItems(items).value[i] == ToCanonical(items[i]).value
  {
    if |items| > 0 {
      CanonicalItemsAt(items[1..]);
      assert items == [items[0]] + items[1..];
      assert forall i :: 0 < i < |items| ==> items[i] == items[1..][i - 1];
    }
  }

  lemma {:induction false} CanonicalEntriesAt(entries: seq<(Key, Value)>)
    ensures CanonicalEntries(entries).Some? <==> forall i :: 0 <= i < |entries| ==> ToCanonical(entries[i].1).Some?
    ensures CanonicalEntries(entries).Some? ==>
      && |CanonicalEntries(entries).value| == |entries|
      && forall i :: 0 <= i < |entries| ==>
           CanonicalEntries(entries).value[i] == (entries[i].0, ToCanonical(entries[i].1).value)
  {
    if |entries| > 0 {
      CanonicalEntriesAt(entries[1..]);
      assert forall i :: 0 < i < |entries| ==> entries[i] == entries[1..][i - 1];
    }
  }

  lemma {:induction false} CanonicalFieldsAt(fields: seq<(string, Value)>)
    ensures CanonicalFields(fields).Some? <==> forall i :: 0 <= i < |fields| ==> ToCanonical(fields[i].1).Some?
    ensures CanonicalFields(fields).Some? ==>
      && |CanonicalFields(fields).value| == |fields|
      && forall i :: 0 <= i < |fields| ==>
           CanonicalFields(fields).value[i] == (TextKey(fields[i].0), ToCanonical(fields[i].1).value)
  {
    if |fields| > 0 {
      CanonicalFieldsAt(fields[1..]);
      assert forall i :: 0 < i < |fields| ==> fields[i] == fields[1..][i - 1];
    }
  }

  lemma {:induction false} SortItemsAt(items: seq<Json>, i: nat)
    requires i < |items|
    ensures SortItems(items)[i] == SortKeys(items[i])
  {
    if i > 0 { SortItemsAt(items[1..], i - 1); }
  }

  lemma {:induction false} SortMembersWithinAt(members: seq<(string, Json)>, i: nat)
    requires i < |members|
    ensures SortMembersWithin(members)[i] == (members[i].0, SortKeys(members[i].1))
  {
    if i > 0 { SortMembersWithinAt(members[1..], i - 1); }
  }

  lemma {:induction false} InsertEntryMembers<T>(e: (Key, T), s: seq<(Key, T)>, y: (Key, T))
    ensures y in InsertEntry(e, s) <==> y == e || y in s
  {
    if |s| > 0 {
      assert s == [s[0]] + s[1..];
      InsertEntryMembers(e, s[1..], y);
    }
  }

  lemma {:induction false} SortEntriesMembers<T>(s: seq<(Key, T)>, y: (Key, T))
    ensures y in SortEntries(s) <==> y in s
  {
    if |s| > 0 {
      assert s == [s[0]] + s[1..];
      SortEntriesMembers(s[1..], y);
      InsertEntryMembers(s[0], SortEntries(s[1..]), y);
    }
  }

  ghost predicate DistinctTexts<T>(s: seq<(Key, T)>) {
    forall i, j :: 0 <= i < j < |s| ==> KeyText(s[i].0) != KeyText(s[j].0)
  }

  lemma {:induction false} InsertEntryDistinct<T>(e: (Key, T), s: seq<(Key, T)>)
    requires DistinctTexts(s)
    requires forall y :: y in s ==> KeyText(y.0) != KeyText(e.0)
    ensures DistinctTexts(InsertEntry(e, s))
  {
    if |s| > 0 {
      InsertEntryDistinct(e, s[1..]);
      var r := InsertEntry(e, s[1..]);
      forall j | 0 <= j < |r| ensures KeyText(s[0].0) != KeyText(r[j].0) {
        InsertEntryMembers(e, s[1..], r[j]);
      }
    }
  }

  lemma {:induction false} SortEntriesDistinct<T>(s: seq<(Key, T)>)
    requires DistinctTexts(s)
    ensures DistinctTexts(SortEntries(s))
  {
    if |s| > 0 {
      SortEntriesDistinct(s[1..]);
      forall y | y in SortEntries(s[1..]) ensures KeyText(y.0) != KeyText(s[0].0) {
        SortEntriesMembers(s[1..], y);
      }
      InsertEntryDistinct(s[0], SortEntries(s[1..]));
    }
  }

  /** The entries of a dict or dataclass after its values are canonicalised. */
  function RawEntries(v: Value): Option<seq<(Key, Json)>>
    requires Dictlike(v)
  {
    if v.Dict? then CanonicalEntries(v.entries) else CanonicalFields(v.fields)
  }

  lemma RawEntriesAt(v: Value)
    requires Dictlike(v) && ToCanonical(v).Some?
    ensures var r := RawEntries(v);
      && r.Some? && |r.value| == Width(v)
      && ToCanonical(v).value == Obj(TextMembers(SortEntries(r.value)))
      && forall i :: 0 <= i < Width(v) ==>
           && ToCanonical(Child(v, i)).Some?
           && KeyText(r.value[i].0) == ChildKey(v, i)
           && r.value[i].1 == ToCanonical(Child(v, i)).value
  {
    if v.Dict? { CanonicalEntriesAt(v.entries); } else { CanonicalFieldsAt(v.fields); }
  }

  lemma RawEntriesDistinct(v: Value)
    requires Dictlike(v) && ToCanonical(v).Some? && WellFormed(v)
    ensures RawEntries(v).Some? && DistinctTexts(RawEntries(v).value)
  {
    RawEntriesAt(v);
    var r := RawEntries(v).value;
    forall i, j | 0 <= i < j < |r| ensures KeyText(r[i].0) != KeyText(r[j].0) {
      if v.Dict? {
        CanonicalEntriesAt(v.entries);
        assert Comparable(v.entries[i].0, v.entries[j].0);
        if v.entries[i].0.IntKey? && KeyText(r[i].0) == KeyText(r[j].0) {
          IntTextInjective(v.entries[i].0.n, v.entries[j].0.n);
        }
      }
    }
  }

  function NormMembers(v: Value): seq<(string, Json)>
    requires Dictlike(v) && ToCanonical(v).Some?
  {
    SortMembersWithin(ToCanonical(v).value.members)
  }

  lemma NormMembersDistinct(v: Value)
    requires Dictlike(v) && ToCanonical(v).Some? && WellFormed(v)
    ensures DistinctKeys(MemberKey, NormMembers(v))
  {
    RawEntriesAt(v);
    RawEntriesDistinct(v);
    SortEntriesDistinct(RawEntries(v).value);
    var m := ToCanonical(v).value.members;
    forall i, j | 0 <= i < j < |m| ensures MemberKey(NormMembers(v)[i]) != MemberKey(NormMembers(v)[j]) {
      SortMembersWithinAt(m, i);
      SortMembersWithinAt(m, j);
    }
  }

  lemma NormMembersFrom(v: Value, x: (string, Json)) returns (i: nat)
    requires Dictlike(v) && ToCanonical(v).Some? && x in NormMembers(v)
    ensures i < Width(v) && ToCanonical(Child(v, i)).Some? && x == (ChildKey(v, i), Norm(Child(v, i)))
  {
    RawEntriesAt(v);
    var raw := RawEntries(v).value;
    var sorted := SortEntries(raw);
    var m := ToCanonical(v).value.members;
    var k :| 0 <= k < |m| && NormMembers(v)[k] == x;
    SortMembersWithinAt(m, k);
    SortEntriesMembers(raw, sorted[k]);
    i :| 0 <= i < |raw| && raw[i] == sorted[k];
  }

  lemma NormMembersTo(v: Value, i: nat)
    requires Dictlike(v) && ToCanonical(v).Some? && i < Width(v)
    ensures ToCanonical(Child(v, i)).Some?
    ensures (ChildKey(v, i), Norm(Child(v, i))) in NormMembers(v)
  {
    RawEntriesAt(v);
    var raw := RawEntries(v).value;
    var sorted := SortEntries(raw);
    SortEntriesMembers(raw, raw[i]);
    var k :| 0 <= k < |sorted| && sorted[k] == raw[i];
    SortMembersWithinAt(ToCanonical(v).value.members, k);
  }

  lemma NormItemsAt(v: Value)
    requires Listlike(v) && ToCanonical(v).Some?
    ensures Norm(v).Arr? && |Norm(v).items| == Width(v)
    ensures forall i {:trigger Child(v, i)} :: 0 <= i < Width(v) ==>
      ToCanonical(Child(v, i)).Some? && Norm(v).items[i] == Norm(Child(v, i))
  {
    CanonicalItemsAt(if v.List? then v.items else v.elements);
    var items := ToCanonical(v).value.items;
    forall i | 0 <= i < |items| ensures SortItems(items)[i] == SortKeys(items[i]) { SortItemsAt(items, i); }
  }

  // ----- main results -----

  lemma {:induction false} SameNorm(a: Value, b: Value)
    requires WellFormed(a) && WellFormed(b)
    requires ToCanonical(a).Some? && ToCanonical(b).Some?
    ensures Norm(a) == Norm(b) <==> Equivalent(a, b)
    decreases a
  {
    if Listlike(a) {
      NormItemsAt(a);
      if Listlike(b) {
        NormItemsAt(b);
        SameNormItems(a, b);
      }
    } else if Dictlike(a) && Dictlike(b) {
      SameNormMembers(a, b);
    }
  }

  lemma {:induction false} SameNormItems(a: Value, b: Value)
    requires WellFormed(a) && WellFormed(b)
    requires ToCanonical(a).Some? && ToCanonical(b).Some?
    requires Listlike(a) && Listlike(b)
    ensures Norm(a) == Norm(b) <==> Equivalent(a, b)
    decreases a, 0
  {
    NormItemsAt(a);
    NormItemsAt(b);
    if Width(a) == Width(b) {
      forall i {:trigger Child(a, i)} | 0 <= i < Width(a)
        ensures Norm(a).items[i] == Norm(b).items[i] <==> Equivalent(Child(a, i), Child(b, i))
      {
        SameNorm(Child(a, i), Child(b, i));
      }
      if Equivalent(a, b) {
        assert forall i :: 0 <= i < Width(a) ==> Norm(a).items[i] == Norm(b).items[i] by {
          forall i | 0 <= i < Width(a) ensures Norm(a).items[i] == Norm(b).items[i] { var c := Child(a, i); }
        }
        assert Norm(a).items == Norm(b).items;
      }
    }
  }

  ghost predicate ChildrenAgree(a: Value, b: Value)
    requires Dictlike(a) && Dictlike(b)
    requires ToCanonical(a).Some? && ToCanonical(b).Some?
  {
    forall i, j {:trigger Child(a, i), Child(b, j)} :: 0 <= i < Width(a) && 0 <= j < Width(b) ==>
      && ToCanonical(Child(a, i)).Some? && ToCanonical(Child(b, j)).Some?
      && (Norm(Child(a, i)) == Norm(Child(b, j)) <==> Equivalent(Child(a, i), Child(b, j)))
  }

  lemma MatchForward(a: Value, i: nat, b: Value) returns (j: nat)
    requires Dictlike(a) && Dictlike(b) && i < Width(a)
    requires ToCanonical(a).Some? && ToCanonical(b).Some?
    requires ChildrenAgree(a, b)
    requires SameMembers(NormMembers(a), NormMembers(b))
    ensures j < Width(b) && Partners(a, i, b, j)
  {
    NormMembersTo(a, i);
    j := NormMembersFrom(b, (ChildKey(a, i), Norm(Child(a, i))));
  }

  lemma MatchBackward(a: Value, b: Value, j: nat) returns (i: nat)
    requires Dictlike(a) && Dictlike(b) && j < Width(b)
    requires ToCanonical(a).Some? && ToCanonical(b).Some?
    requires ChildrenAgree(a, b)
    requires SameMembers(NormMembers(a), NormMembers(b))
    ensures i < Width(a) && Partners(a, i, b, j)
  {
    NormMembersTo(b, j);
    i := NormMembersFrom(a, (ChildKey(b, j), Norm(Child(b, j))));
  }

  lemma SameMembersEquivalent(a: Value, b: Value)
    requires Dictlike(a) && Dictlike(b)
    requires ToCanonical(a).Some? && ToCanonical(b).Some?
    requires ChildrenAgree(a, b)
    requires SameMembers(NormMembers(a), NormMembers(b))
    ensures Equivalent(a, b)
  {
    forall i | 0 <= i < Width(a) ensures HasPartner(a, i, b) { var j := MatchForward(a, i, b); }
    forall j | 0 <= j < Width(b) ensures IsPartner(a, b, j) { var i := MatchBackward(a, b, j); }
  }

  lemma EquivalentMembers(a: Value, b: Value, x: (string, Json))
    requires Dictlike(a) && Dictlike(b)
    requires ToCanonical(a).Some? && ToCanonical(b).Some?
    requires ChildrenAgree(a, b)
    requires Equivalent(a, b)
    ensures x in NormMembers(a) <==> x in NormMembers(b)
  {
    if x in NormMembers(a) {
      var i := NormMembersFrom(a, x);
      assert HasPartner(a, i, b);
      var j :| 0 <= j < Width(b) && Partners(a, i, b, j);
      NormMembersTo(b, j);
    }
    if x in NormMembers(b) {
      var j := NormMembersFrom(b, x);
      assert IsPartner(a, b, j);
      var i :| 0 <= i < Width(a) && Partners(a, i, b, j);
      NormMembersTo(a, i);
    }
  }

  lemma {:induction false} SameNormMembers(a: Value, b: Value)
    requires WellFormed(a) && WellFormed(b)
    requires ToCanonical(a).Some? && ToCanonical(b).Some?
    requires Dictlike(a) && Dictlike(b)
    ensures Norm(a) == Norm(b) <==> Equivalent(a, b)
    decreases a, 0
  {
    NormMembersDistinct(a);
    NormMembersDistinct(b);
    RawEntriesAt(a);
    RawEntriesAt(b);
    SortForgetsOrder(MemberKey, NormMembers(a), NormMembers(b));
    forall i, j {:trigger Child(a, i), Child(b, j)} | 0 <= i < Width(a) && 0 <= j < Width(b)
      ensures Norm(Child(a, i)) == Norm(Child(b, j)) <==> Equivalent(Child(a, i), Child(b, j))
    {
      SameNorm(Child(a, i), Child(b, j));
    }
    assert ChildrenAgree(a, b);
    if Equivalent(a, b) {
      forall x ensures x in NormMembers(a) <==> x in NormMembers(b) { EquivalentMembers(a, b, x); }
    }
    if SameMembers(NormMembers(a), NormMembers(b)) { SameMembersEquivalent(a, b); }
  }

  /** Canonical text is unambiguous: two values print the same text exactly when they are
      equal up to dict order. */
  lemma CanonicalTextUnambiguous(limit: nat, a: Value, b: Value)
    requires WellFormed(a) && WellFormed(b)
    requires CanonicalJson(limit, a).Some? && CanonicalJson(limit, b).Some?
    ensures CanonicalJson(limit, a) == CanonicalJson(limit, b) <==> Equivalent(a, b)
  {
    PrintInjective(Norm(a), Norm(b));
    SameNorm(a, b);
  }

  /** Content identifiers inherit it from any collision-free hash. */
  lemma DigestUnambiguous(limit: nat, hash: string -> string, prefix: string, a: Value, b: Value)
    requires forall s, t :: hash(s) == hash(t) ==> s == t
    requires WellFormed(a) && WellFormed(b)
    requires CanonicalJson(limit, a).Some? && CanonicalJson(limit, b).Some?
    ensures StableDigest(limit, hash, prefix, a) == StableDigest(limit, hash, prefix, b) <==> Equivalent(a, b)
  {
    CanonicalTextUnambiguous(limit, a, b);
    if StableDigest(limit, hash, prefix, a) == StableDigest(limit, hash, prefix, b) {
      PrefixCancel(prefix, hash(CanonicalJson(limit, a).value), hash(CanonicalJson(limit, b).value));
    }
  }

  // ----- when canonicalising fails -----

  /** Some dict inside `v` has both text and int keys. */
  ghost predicate MixesKeys(v: Value)
    decreases v
  {
    || (v.Dict? && exists a, b :: a in v.entries && b in v.entries && a.0.TextKey? && b.0.IntKey?)
    || exists i {:trigger Child(v, i)} :: 0 <= i < Width(v) && MixesKeys(Child(v, i))
  }

  lemma UnsortableMixes<T>(entries: seq<(Key, T)>)
    ensures !Sortable(entries) <==> exists a, b :: a in entries && b in entries && a.0.TextKey? && b.0.IntKey?
  {
    if !Sortable(entries) {
      var i :| 0 <= i < |entries| && !entries[i].0.TextKey?;
      var j :| 0 <= j < |entries| && !entries[j].0.IntKey?;
      assert entries[j] in entries && entries[i] in entries;
    }
  }

  lemma {:induction false} FailsExactlyOnMixedKeys(v: Value)
    ensures ToCanonical(v).None? <==> MixesKeys(v)
    decreases v
  {
    forall i {:trigger Child(v, i)} | 0 <= i < Width(v)
      ensures ToCanonical(Child(v, i)).None? <==> MixesKeys(Child(v, i))
    {
      FailsExactlyOnMixedKeys(Child(v, i));
    }
    match v
    case Leaf(_) =>
    case Member(_) =>
    case List(items) => CanonicalItemsAt(items); AllChildren(v, items);
    case Tuple(items) => CanonicalItemsAt(items); AllChildren(v, items);
    case Dict(entries) =>
      CanonicalEntriesAt(entries);
      UnsortableMixes(entries);
      assert forall i :: 0 <= i < |entries| ==> entries[i].1 == Child(v, i);
    case Record(fields) =>
      CanonicalFieldsAt(fields);
      assert forall i :: 0 <= i < |fields| ==> fields[i].1 == Child(v, i);
  }

  lemma AllChildren(v: Value, items: seq<Value>)
    requires v == List(items) || v == Tuple(items)
    ensures forall i :: 0 <= i < |items| ==> items[i] == Child(v, i)
  {
  }

  function TenTo(k: nat): nat { if k == 0 then 1 else 10 * TenTo(k - 1) }

  /** More than `limit` decimal digits. */
  predicate TooLong(limit: nat, n: int) {
    limit == 0 || n >= TenTo(limit) || -n >= TenTo(limit)
  }

  lemma {:induction false} DigitsWithin(n: nat, k: nat)
    ensures |NatText(n)| <= k <==> 0 < k && n < TenTo(k)
  {
    if n < 10 {
      TenToPositive(k);
    } else if k > 0 {
      DigitsWithin(n / 10, k - 1);
    }
  }

  lemma {:induction false} TenToPositive(k: nat)
    ensures TenTo(k) >= 1 && (k > 0 ==> TenTo(k) >= 10)
  {
    if k > 0 { TenToPositive(k - 1); }
  }

  lemma WritableUnlessLong(limit: nat)
    ensures forall n :: Writable(limit, n) <==> !TooLong(limit, n)
  {
    forall n ensures Writable(limit, n) <==> !TooLong(limit, n) {
      DigitsWithin(if n < 0 then -n else n, limit);
      TenToPositive(limit);
    }
  }

  /** Some int inside `v`, key or not, has too many digits. */
  ghost predicate HoldsLongInt(limit: nat, v: Value)
    decreases v
  {
    || (!Listlike(v) && !Dictlike(v) && ScalarOf(v).Int? && TooLong(limit, ScalarOf(v).n))
    || (v.Dict? && exists i :: 0 <= i < |v.entries| && v.entries[i].0.IntKey? && TooLong(limit, v.entries[i].0.n))
    || exists i {:trigger Child(v, i)} :: 0 <= i < Width(v) && HoldsLongInt(limit, Child(v, i))
  }

  lemma {:induction false} SortKeysAtoms(limit: nat, j: Json)
    ensures AtomsWritable(limit, SortKeys(j)) <==> AtomsWritable(limit, j)
    decreases j
  {
    var k := SortKeys(j);
    forall i {:trigger Part(j, i)} | 0 <= i < Parts(j)
      ensures AtomsWritable(limit, SortKeys(Part(j, i))) <==> AtomsWritable(limit, Part(j, i))
    {
      SortKeysAtoms(limit, Part(j, i));
    }
    if j.Arr? {
      forall i | 0 <= i < |j.items| ensures SortItems(j.items)[i] == SortKeys(Part(j, i)) { SortItemsAt(j.items, i); }
      assert forall i {:trigger Part(j, i)} :: 0 <= i < Parts(j) ==> Part(k, i) == SortKeys(Part(j, i));
      assert forall i {:trigger Part(k, i)} :: 0 <= i < Parts(k) ==> Part(k, i) == SortKeys(Part(j, i));
    } else if j.Obj? {
      var within := SortMembersWithin(j.members);
      if AtomsWritable(limit, j) {
        forall a {:trigger Part(k, a)} | 0 <= a < Parts(k) ensures AtomsWritable(limit, Part(k, a)) {
          SortMembers(MemberKey, within, k.members[a]);
          var i :| 0 <= i < |within| && within[i] == k.members[a];
          SortMembersWithinAt(j.members, i);
          assert Part(k, a) == SortKeys(Part(j, i));
        }
      }
      if AtomsWritable(limit, k) {
        forall i {:trigger Part(j, i)} | 0 <= i < Parts(j) ensures AtomsWritable(limit, Part(j, i)) {
          SortMembersWithinAt(j.members, i);
          SortMembers(MemberKey, within, within[i]);
          var a :| 0 <= a < |k.members| && k.members[a] == within[i];
          assert Part(k, a) == SortKeys(Part(j, i));
        }
      }
    }
  }

  /** The ints that `to_canonical_data` and `json.dumps` write are those the value holds. */
  lemma {:induction false} LongIntsSeen(limit: nat, v: Value)
    requires ToCanonical(v).Some?
    ensures HoldsLongInt(limit, v) <==> !KeysWritable(limit, v) || !AtomsWritable(limit, ToCanonical(v).value)
    decreases v
  {
    WritableUnlessLong(limit);
    var j := ToCanonical(v).value;
    var writable := k => AtomsWritable(limit, k);
    if Listlike(v) {
      CanonicalItemsAt(if v.List? then v.items else v.elements);
      assert forall i {:trigger Child(v, i)} :: 0 <= i < Width(v) ==> Part(j, i) == ToCanonical(Child(v, i)).value;
      assert forall i {:trigger Part(j, i)} :: 0 <= i < Parts(j) ==> Part(j, i) == ToCanonical(Child(v, i)).value;
    } else if Dictlike(v) {
      PartsAndChildren(v, j, writable);
    }
    forall i {:trigger Child(v, i)} | 0 <= i < Width(v)
      ensures ToCanonical(Child(v, i)).Some?
      ensures HoldsLongInt(limit, Child(v, i))
              <==> !KeysWritable(limit, Child(v, i)) || !writable(ToCanonical(Child(v, i)).value)
    {
      LongIntsSeen(limit, Child(v, i));
    }
  }

  /** `canonical_json` raises exactly when some dict mixes text and int keys or some int is too long. */
  lemma FailsExactly(limit: nat, v: Value)
    ensures CanonicalJson(limit, v).None? <==> MixesKeys(v) || HoldsLongInt(limit, v)
  {
    FailsExactlyOnMixedKeys(v);
    if ToCanonical(v).Some? {
      LongIntsSeen(limit, v);
      SortKeysAtoms(limit, ToCanonical(v).value);
    }
  }

  // ----- canonicalising twice -----

  /** Canonical data read back as a value. */
  function Embed(j: Json): Value
    decreases j, 1
  {
    match j
    case Atom(x) => Leaf(x)
    case Arr(items) => List(EmbedItems(items))
    case Obj(members) => Dict(EmbedMembers(members))
  }

  function EmbedItems(items: seq<Json>): (r: seq<Value>)
    ensures |r| == |items|
    decreases items, 0
  {
    if |items| == 0 then [] else [Embed(items[0])] + EmbedItems(items[1..])
  }

  function EmbedMember(m: (string, Json)): (Key, Value)
    decreases m, 2
  {
    (TextKey(m.0), Embed(m.1))
  }

  function EmbedMembers(members: seq<(string, Json)>): (r: seq<(Key, Value)>)
    ensures |r| == |members| && forall i :: 0 <= i < |r| ==> r[i].0.TextKey?
    decreases members, 0
  {
    if |members| == 0 then [] else [EmbedMember(members[0])] + EmbedMembers(members[1..])
  }

  function Keyed(members: seq<(string, Json)>): (r: seq<(Key, Json)>)
    ensures |r| == |members|
  {
    seq(|members|, i requires 0 <= i < |members| => (TextKey(members[i].0), members[i].1))
  }

  lemma {:induction false} InsertKeyed(m: (string, Json), s: seq<(string, Json)>)
    ensures InsertEntry((TextKey(m.0), m.1), Keyed(s)) == Keyed(Insert(MemberKey, m, s))
  {
    if |s| > 0 {
      assert Keyed(s)[1..] == Keyed(s[1..]);
      InsertKeyed(m, s[1..]);
    }
  }

  lemma {:induction false} SortKeyed(s: seq<(string, Json)>)
    ensures SortEntries(Keyed(s)) == Keyed(SortBy(MemberKey, s))
  {
    if |s| > 0 {
      assert Keyed(s)[1..] == Keyed(s[1..]);
      SortKeyed(s[1..]);
      InsertKeyed(s[0], SortBy(MemberKey, s[1..]));
    }
  }

  /** Canonicalising JSON data does exactly what `sort_keys` does. */
  lemma {:induction false} CanonicalOfEmbed(j: Json)
    ensures ToCanonical(Embed(j)) == Some(SortKeys(j))
    decreases j, 1
  {
    match j
    case Atom(_) =>
    case Arr(items) => CanonicalOfItems(items);
    case Obj(members) =>
      CanonicalOfMembers(members);
      SortKeyed(SortMembersWithin(members));
      var sorted := SortBy(MemberKey, SortMembersWithin(members));
      assert TextMembers(Keyed(sorted)) == sorted;
  }

  lemma {:induction false} CanonicalOfItems(items: seq<Json>)
    ensures CanonicalItems(EmbedItems(items)) == Some(SortItems(items))
    decreases items, 0
  {
    if |items| > 0 {
      CanonicalOfEmbed(items[0]);
      CanonicalOfItems(items[1..]);
      assert EmbedItems(items)[1..] == EmbedItems(items[1..]);
    }
  }

  lemma {:induction false} CanonicalOfMember(m: (string, Json))
    ensures CanonicalEntry(EmbedMember(m)) == Some((TextKey(m.0), SortKeys(m.1)))
    decreases m, 2
  {
    CanonicalOfEmbed(m.1);
  }

  lemma {:induction false} CanonicalOfMembers(members: seq<(string, Json)>)
    ensures CanonicalEntries(EmbedMembers(members)) == Some(Keyed(SortMembersWithin(members)))
    decreases members, 0
  {
    if |members| > 0 {
      CanonicalOfMember(members[0]);
      CanonicalOfMembers(members[1..]);
      assert EmbedMembers(members)[1..] == EmbedMembers(members[1..]);
      assert Keyed(SortMembersWithin(members))
          == [(TextKey(members[0].0), SortKeys(members[0].1))] + Keyed(SortMembersWithin(members[1..]));
    }
  }

  function Parts(j: Json): nat {
    match j case Atom(_) => 0 case Arr(items) => |items| case Obj(members) => |members|
  }

  function Part(j: Json, i: nat): (c: Json)
    requires i < Parts(j)
    ensures c < j
  {
    match j case Arr(items) => items[i] case Obj(members) => members[i].1
  }

  /** Every object lists its members in ascending key order, none twice. */
  ghost predicate TextOrdered(j: Json)
    decreases j
  {
    && (j.Obj? ==> Ascending(MemberKey, j.members))
    && forall i {:trigger Part(j, i)} :: 0 <= i < Parts(j) ==> TextOrdered(Part(j, i))
  }

  ghost predicate UniqueKeys(j: Json)
    decreases j
  {
    && (j.Obj? ==> DistinctKeys(MemberKey, j.members))
    && forall i {:trigger Part(j, i)} :: 0 <= i < Parts(j) ==> UniqueKeys(Part(j, i))
  }

  lemma {:induction false} SortKeysOrders(j: Json)
    requires UniqueKeys(j)
    ensures TextOrdered(SortKeys(j))
    decreases j
  {
    var k := SortKeys(j);
    match j
    case Atom(_) =>
    case Arr(items) =>
      forall i {:trigger Part(k, i)} | 0 <= i < Parts(k) ensures TextOrdered(Part(k, i)) {
        SortItemsAt(items, i);
        SortKeysOrders(Part(j, i));
      }
    case Obj(members) =>
      var within := SortMembersWithin(members);
      forall i | 0 <= i < |members|
        ensures within[i] == (members[i].0, SortKeys(Part(j, i))) && TextOrdered(within[i].1)
      {
        SortMembersWithinAt(members, i);
        SortKeysOrders(Part(j, i));
      }
      SortAscending(MemberKey, within);
      forall i {:trigger Part(k, i)} | 0 <= i < Parts(k) ensures TextOrdered(Part(k, i)) {
        SortMembers(MemberKey, within, k.members[i]);
      }
  }

  lemma {:induction false} SortKeysFixed(j: Json)
    requires TextOrdered(j)
    ensures SortKeys(j) == j
    decreases j
  {
    match j
    case Atom(_) =>
    case Arr(items) =>
      forall i | 0 <= i < |items| ensures SortItems(items)[i] == items[i] {
        SortItemsAt(items, i);
        SortKeysFixed(Part(j, i));
      }
    case Obj(members) =>
      forall i | 0 <= i < |members| ensures SortMembersWithin(members)[i] == members[i] {
        SortMembersWithinAt(members, i);
        SortKeysFixed(Part(j, i));
      }
      assert SortMembersWithin(members) == members;
      SortIdentity(MemberKey, members);
  }

  lemma {:induction false} CanonicalUniqueKeys(v: Value)
    requires WellFormed(v) && ToCanonical(v).Some?
    ensures UniqueKeys(ToCanonical(v).value)
    decreases v
  {
    var j := ToCanonical(v).value;
    if Listlike(v) {
      CanonicalItemsAt(if v.List? then v.items else v.elements);
      forall i {:trigger Part(j, i)} | 0 <= i < Parts(j) ensures UniqueKeys(Part(j, i)) {
        CanonicalUniqueKeys(Child(v, i));
      }
    } else if Dictlike(v) {
      RawEntriesAt(v);
      RawEntriesDistinct(v);
      var raw := RawEntries(v).value;
      SortEntriesDistinct(raw);
      forall i {:trigger Part(j, i)} | 0 <= i < Parts(j) ensures UniqueKeys(Part(j, i)) {
        SortEntriesMembers(raw, SortEntries(raw)[i]);
        var k :| 0 <= k < |raw| && raw[k] == SortEntries(raw)[i];
        CanonicalUniqueKeys(Child(v, k));
      }
    }
  }

  // ----- the order keys are sorted in, and the order of their texts -----

  lemma KeyOrder(a: Key, b: Key, c: Key)
    requires Comparable(a, b) && Comparable(b, c)
    ensures !KeyLess(a, a)
    ensures KeyLess(a, b) ==> !KeyLess(b, a)
    ensures a != b ==> KeyLess(a, b) || KeyLess(b, a)
    ensures KeyLess(a, b) && KeyLess(b, c) ==> KeyLess(a, c)
  {
    if a.TextKey? {
      LessTotal(a.text, b.text);
      if Less(a.text, a.text) { LessAsymmetric(a.text, a.text); }
      if Less(a.text, b.text) {
        LessAsymmetric(a.text, b.text);
        if Less(b.text, c.text) { LessTransitive(a.text, b.text, c.text); }
      }
    }
  }

  ghost predicate KeyAscending<T(!new)>(s: seq<(Key, T)>) {
    forall i, j :: 0 <= i < j < |s| ==> Comparable(s[i].0, s[j].0) && KeyLess(s[i].0, s[j].0)
  }

  /** `key` can be sorted among the keys of `s` and is none of them. */
  ghost predicate FitsAmong<T(!new)>(key: Key, s: seq<(Key, T)>) {
    forall i :: 0 <= i < |s| ==> Comparable(key, s[i].0) && key != s[i].0
  }

  lemma {:induction false} InsertEntryAscending<T(!new)>(e: (Key, T), s: seq<(Key, T)>)
    requires KeyAscending(s) && FitsAmong(e.0, s)
    ensures KeyAscending(InsertEntry(e, s))
  {
    if |s| > 0 {
      var head := s[0].0;
      KeyOrder(head, e.0, head);
      if KeyLess(head, e.0) {
        InsertEntryAscending(e, s[1..]);
        var r := InsertEntry(e, s[1..]);
        forall j | 0 <= j < |r| ensures Comparable(head, r[j].0) && KeyLess(head, r[j].0) {
          InsertEntryMembers(e, s[1..], r[j]);
        }
      } else {
        forall j | 0 <= j < |s| ensures Comparable(e.0, s[j].0) && KeyLess(e.0, s[j].0) {
          if j > 0 { KeyOrder(e.0, head, s[j].0); }
        }
      }
    }
  }

  ghost predicate DistinctEntryKeys<T(!new)>(s: seq<(Key, T)>) {
    forall i, j :: 0 <= i < j < |s| ==> s[i].0 != s[j].0
  }

  /** Sorting entries puts their keys in ascending order. */
  lemma {:induction false} SortEntriesAscending<T(!new)>(s: seq<(Key, T)>)
    requires Sortable(s) && DistinctEntryKeys(s)
    ensures KeyAscending(SortEntries(s))
  {
    if |s| > 0 {
      var rest := SortEntries(s[1..]);
      SortEntriesAscending(s[1..]);
      forall i | 0 <= i < |rest| ensures Comparable(s[0].0, rest[i].0) && s[0].0 != rest[i].0 {
        SortEntriesMembers(s[1..], rest[i]);
        var k :| 0 <= k < |s[1..]| && s[1..][k] == rest[i];
        assert s[k + 1] == rest[i];
      }
      InsertEntryAscending(s[0], rest);
    }
  }

  /** The two keys compare as their texts do. */
  predicate KeysAgree(a: Key, b: Key) {
    Comparable(a, b) ==> (KeyLess(a, b) <==> Less(KeyText(a), KeyText(b)))
  }

  ghost predicate AllKeysAgree<T(!new)>(s: seq<(Key, T)>) {
    forall i, j :: 0 <= i < |s| && 0 <= j < |s| ==> KeysAgree(s[i].0, s[j].0)
  }

  ghost predicate TextAscending<T(!new)>(s: seq<(Key, T)>) {
    forall i, j :: 0 <= i < j < |s| ==> Less(KeyText(s[i].0), KeyText(s[j].0))
  }

  lemma {:induction false} AgreeAt<T(!new)>(sorted: seq<(Key, T)>, i: nat, j: nat)
    requires i < |sorted| && j < |sorted| && KeyAscending(sorted) && TextAscending(sorted)
    ensures KeysAgree(sorted[i].0, sorted[j].0)
  {
    var a, b := sorted[i].0, sorted[j].0;
    if i < j {
    } else if i == j {
      KeyOrder(a, a, a);
      if Less(KeyText(a), KeyText(a)) { LessAsymmetric(KeyText(a), KeyText(a)); }
    } else {
      KeyOrder(b, a, b);
      LessAsymmetric(KeyText(b), KeyText(a));
    }
  }

  /** Sorted entries stand in text order exactly when all their keys compare as their texts do. */
  lemma SortedTexts<T(!new)>(raw: seq<(Key, T)>)
    requires Sortable(raw) && DistinctEntryKeys(raw)
    ensures TextAscending(SortEntries(raw)) <==> AllKeysAgree(raw)
  {
    var sorted := SortEntries(raw);
    SortEntriesAscending(raw);
    if AllKeysAgree(raw) {
      forall a, b | 0 <= a < b < |sorted| ensures Less(KeyText(sorted[a].0), KeyText(sorted[b].0)) {
        var i := FromSorted(raw, a);
        var j := FromSorted(raw, b);
        assert KeysAgree(raw[i].0, raw[j].0);
      }
    }
    if TextAscending(sorted) {
      forall i, j | 0 <= i < |raw| && 0 <= j < |raw| ensures KeysAgree(raw[i].0, raw[j].0) {
        var a := ToSorted(raw, i);
        var b := ToSorted(raw, j);
        AgreeAt(sorted, a, b);
      }
    }
  }

  lemma FromSorted<T(!new)>(raw: seq<(Key, T)>, a: nat) returns (i: nat)
    requires a < |SortEntries(raw)|
    ensures i < |raw| && raw[i] == SortEntries(raw)[a]
  {
    SortEntriesMembers(raw, SortEntries(raw)[a]);
    i :| 0 <= i < |raw| && raw[i] == SortEntries(raw)[a];
  }

  lemma ToSorted<T(!new)>(raw: seq<(Key, T)>, i: nat) returns (a: nat)
    requires i < |raw|
    ensures a < |SortEntries(raw)| && SortEntries(raw)[a] == raw[i]
  {
    SortEntriesMembers(raw, raw[i]);
    a :| 0 <= a < |SortEntries(raw)| && SortEntries(raw)[a] == raw[i];
  }

  /** In every dict inside `v`, two keys are in key order exactly when their texts are in text order. */
  ghost predicate OrdersAgree(v: Value)
    decreases v
  {
    && (v.Dict? ==> AllKeysAgree(v.entries))
    && forall i {:trigger Child(v, i)} :: 0 <= i < Width(v) ==> OrdersAgree(Child(v, i))
  }

  lemma SameKeysAgree<T(!new), U(!new)>(s: seq<(Key, T)>, t: seq<(Key, U)>)
    requires |s| == |t| && forall i :: 0 <= i < |s| ==> s[i].0 == t[i].0
    ensures Sortable(s) <==> Sortable(t)
    ensures DistinctEntryKeys(s) <==> DistinctEntryKeys(t)
    ensures AllKeysAgree(s) <==> AllKeysAgree(t)
  {
    if AllKeysAgree(s) {
      forall i, j | 0 <= i < |t| && 0 <= j < |t| ensures KeysAgree(t[i].0, t[j].0) {
        assert KeysAgree(s[i].0, s[j].0);
      }
    }
    if AllKeysAgree(t) {
      forall i, j | 0 <= i < |s| && 0 <= j < |s| ensures KeysAgree(s[i].0, s[j].0) {
        assert KeysAgree(t[i].0, t[j].0);
      }
    }
  }

  lemma DictKeys(entries: seq<(Key, Value)>, raw: seq<(Key, Json)>)
    requires CanonicalEntries(entries) == Some(raw) && Sortable(entries) && DistinctEntryKeys(entries)
    ensures Sortable(raw) && DistinctEntryKeys(raw)
    ensures AllKeysAgree(raw) <==> AllKeysAgree(entries)
  {
    CanonicalEntriesAt(entries);
    SameKeysAgree(raw, entries);
  }

  lemma {:induction false} RecordKeys(fields: seq<(string, Value)>, raw: seq<(Key, Json)>)
    requires CanonicalFields(fields) == Some(raw)
    requires forall i, j :: 0 <= i < j < |fields| ==> fields[i].0 != fields[j].0
    ensures Sortable(raw) && DistinctEntryKeys(raw) && AllKeysAgree(raw)
  {
    CanonicalFieldsAt(fields);
    TextKeysFine(raw, fields);
  }

  /** The keys of the raw entries are those of the dict, and texts for a dataclass. */
  lemma RawKeys(v: Value)
    requires Dictlike(v) && ToCanonical(v).Some? && WellFormed(v)
    ensures RawEntries(v).Some?
    ensures Sortable(RawEntries(v).value) && DistinctEntryKeys(RawEntries(v).value)
    ensures AllKeysAgree(RawEntries(v).value) <==> (v.Dict? ==> AllKeysAgree(v.entries))
  {
    if v.Dict? {
      DictKeys(v.entries, CanonicalEntries(v.entries).value);
    } else {
      RecordKeys(v.fields, CanonicalFields(v.fields).value);
    }
  }

  lemma {:induction false} TextKeysFine(raw: seq<(Key, Json)>, fields: seq<(string, Value)>)
    requires |raw| == |fields| && forall i :: 0 <= i < |raw| ==> raw[i].0 == TextKey(fields[i].0)
    requires forall i, j :: 0 <= i < j < |fields| ==> fields[i].0 != fields[j].0
    ensures Sortable(raw) && DistinctEntryKeys(raw) && AllKeysAgree(raw)
  {
  }

  lemma MembersAscending(v: Value)
    requires Dictlike(v) && ToCanonical(v).Some? && WellFormed(v)
    ensures ToCanonical(v).value.Obj?
    ensures Ascending(MemberKey, ToCanonical(v).value.members) <==> (v.Dict? ==> AllKeysAgree(v.entries))
  {
    RawEntriesAt(v);
    RawKeys(v);
    var raw := RawEntries(v).value;
    SortedTexts(raw);
    TextOfMembers(SortEntries(raw));
  }

  lemma TextOfMembers(sorted: seq<(Key, Json)>)
    ensures Ascending(MemberKey, TextMembers(sorted)) <==> TextAscending(sorted)
  {
    var members := TextMembers(sorted);
    assert forall i :: 0 <= i < |sorted| ==> MemberKey(members[i]) == KeyText(sorted[i].0);
  }

  /** The first result stands in text order exactly when the orders agree throughout the input. */
  lemma {:induction false} OrderedIffAgree(v: Value)
    requires WellFormed(v) && ToCanonical(v).Some?
    ensures TextOrdered(ToCanonical(v).value) <==> OrdersAgree(v)
    decreases v
  {
    var j := ToCanonical(v).value;
    if Listlike(v) {
      CanonicalItemsAt(if v.List? then v.items else v.elements);
      forall i {:trigger Part(j, i)} | 0 <= i < Width(v)
        ensures TextOrdered(Part(j, i)) <==> OrdersAgree(Child(v, i))
      {
        OrderedIffAgree(Child(v, i));
      }
      assert forall i {:trigger Child(v, i)} :: 0 <= i < Width(v) ==>
        (TextOrdered(Part(j, i)) <==> OrdersAgree(Child(v, i)));
    } else if Dictlike(v) {
      RawEntriesAt(v);
      MembersAscending(v);
      forall i {:trigger Child(v, i)} | 0 <= i < Width(v)
        ensures TextOrdered(ToCanonical(Child(v, i)).value) <==> OrdersAgree(Child(v, i))
      {
        OrderedIffAgree(Child(v, i));
      }
      PartsAndChildren(v, j, k => TextOrdered(k));
    }
  }

  /** The members of the first result are the canonical children. */
  lemma PartsAndChildren(v: Value, j: Json, holds: Json -> bool)
    requires Dictlike(v) && ToCanonical(v) == Some(j)
    ensures forall i {:trigger Child(v, i)} :: 0 <= i < Width(v) ==> ToCanonical(Child(v, i)).Some?
    ensures (forall i {:trigger Part(j, i)} :: 0 <= i < Parts(j) ==> holds(Part(j, i)))
            <==> forall i {:trigger Child(v, i)} :: 0 <= i < Width(v) ==> holds(ToCanonical(Child(v, i)).value)
  {
    RawEntriesAt(v);
    var raw := RawEntries(v).value;
    var sorted := SortEntries(raw);
    if forall i {:trigger Part(j, i)} :: 0 <= i < Parts(j) ==> holds(Part(j, i)) {
      forall i {:trigger Child(v, i)} | 0 <= i < Width(v) ensures holds(ToCanonical(Child(v, i)).value) {
        var a := ToSorted(raw, i);
        assert Part(j, a) == sorted[a].1;
      }
    }
    if forall i {:trigger Child(v, i)} :: 0 <= i < Width(v) ==> holds(ToCanonical(Child(v, i)).value) {
      forall a {:trigger Part(j, a)} | 0 <= a < Parts(j) ensures holds(Part(j, a)) {
        var i := FromSorted(raw, a);
        assert raw[i].1 == ToCanonical(Child(v, i)).value;
      }
    }
  }

  lemma {:induction false} EmbedItemsAt(items: seq<Json>, i: nat)
    requires i < |items|
    ensures EmbedItems(items)[i] == Embed(items[i])
  {
    if i > 0 { EmbedItemsAt(items[1..], i - 1); }
  }

  lemma {:induction false} EmbedMembersAt(members: seq<(string, Json)>, i: nat)
    requires i < |members|
    ensures EmbedMembers(members)[i] == EmbedMember(members[i])
  {
    if i > 0 { EmbedMembersAt(members[1..], i - 1); }
  }

  /** JSON data has no int keys. */
  lemma {:induction false} EmbedKeys(limit: nat, j: Json)
    ensures KeysWritable(limit, Embed(j))
    decreases j
  {
    var v := Embed(j);
    forall i {:trigger Child(v, i)} | 0 <= i < Width(v) ensures KeysWritable(limit, Child(v, i)) {
      if j.Arr? { EmbedItemsAt(j.items, i); } else { EmbedMembersAt(j.members, i); }
      EmbedKeys(limit, Part(j, i));
    }
  }

  /** A second canonicalisation prints the same text and returns the same data up to member
      order. The order is unchanged too exactly when, in every dict of the value, two keys are in
      key order just when their texts are in text order. */
  lemma CanonicaliseTwice(limit: nat, v: Value)
    requires WellFormed(v) && CanonicalData(limit, v).Some?
    ensures var j := CanonicalData(limit, v).value;
      && CanonicalJson(limit, Embed(j)) == CanonicalJson(limit, v)
      && (CanonicalData(limit, Embed(j)) == Some(j) <==> OrdersAgree(v))
  {
    var j := ToCanonical(v).value;
    EmbedKeys(limit, j);
    CanonicalUniqueKeys(v);
    CanonicalOfEmbed(j);
    SortKeysOrders(j);
    SortKeysFixed(SortKeys(j));
    if TextOrdered(j) { SortKeysFixed(j); }
    OrderedIffAgree(v);
  }

  ghost predicate TextKeyed(v: Value)
    decreases v
  {
    && (v.Dict? ==> forall i :: 0 <= i < |v.entries| ==> v.entries[i].0.TextKey?)
    && forall i {:trigger Child(v, i)} :: 0 <= i < Width(v) ==> TextKeyed(Child(v, i))
  }

  /** With text keys throughout, canonicalising is idempotent outright. */
  lemma TextKeysIdempotent(limit: nat, v: Value)
    requires WellFormed(v) && TextKeyed(v) && CanonicalData(limit, v).Some?
    ensures CanonicalData(limit, Embed(CanonicalData(limit, v).value)) == CanonicalData(limit, v)
  {
    TextKeysAgree(v);
    CanonicaliseTwice(limit, v);
  }

  lemma {:induction false} TextKeysAgree(v: Value)
    requires TextKeyed(v)
    ensures OrdersAgree(v)
    decreases v
  {
    forall i {:trigger Child(v, i)} | 0 <= i < Width(v) ensures OrdersAgree(Child(v, i)) {
      TextKeysAgree(Child(v, i));
    }
  }

  /** With int keys the order can change: 2 comes before 10, "10" before "2". */
  lemma IntKeysReorder()
    ensures var v := Dict([(IntKey(10), Leaf(Null)), (IntKey(2), Leaf(Null))]);
      && ToCanonical(v) == Some(Obj([("2", Atom(Null)), ("10", Atom(Null))]))
      && ToCanonical(Embed(ToCanonical(v).value)) == Some(Obj([("10", Atom(Null)), ("2", Atom(Null))]))
  {
    var two, ten := (IntKey(2), Atom(Null)), (IntKey(10), Atom(Null));
    var v := Dict([(IntKey(10), Leaf(Null)), (IntKey(2), Leaf(Null))]);
    CanonicalEntriesAt(v.entries);
    assert CanonicalEntries(v.entries).value == [ten, two];
    assert SortEntries([ten, two]) == [two, ten] by {
      assert SortEntries([two]) == [two] by { assert [two][1..] == []; }
      assert [ten, two][1..] == [two];
      assert InsertEntry(ten, []) == [ten];
      assert [two][1..] == [];
    }
    assert NatText(1) == "1" && NatText(2) == "2" && NatText(10) == "10";
    assert TextMembers([two, ten]) == [("2", Atom(Null)), ("10", Atom(Null))];
    var j := Obj([("2", Atom(Null)), ("10", Atom(Null))]);
    CanonicalOfEmbed(j);
    var a, b: (string, Json) := ("2", Atom(Null)), ("10", Atom(Null));
    assert SortMembersWithin(j.members) == [a, b] by {
      SortMembersWithinAt(j.members, 0);
      SortMembersWithinAt(j.members, 1);
    }
    assert SortBy(MemberKey, [a, b]) == [b, a] by {
      assert [a, b][1..] == [b] && [b][1..] == [];
      assert SortBy(MemberKey, [b]) == [b];
      assert Less("10", "2");
      assert Insert(MemberKey, a, []) == [a];
      assert Insert(MemberKey, a, [b]) == [b] + Insert(MemberKey, a, []);
    }
  }
}

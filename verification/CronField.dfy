/** Cron fields: their text, what it denotes, and the parser (apps/cli/src/schedule.ts). */
module CronField {
  import opened Options
  import opened Splitting
  import opened Decimals

  // ---- items ----------------------------------------------------------------------------------------------

  /** `*`, `a`, or `a-b`; the parser ignores what follows a second hyphen. */
  datatype Base = Star | From(first: string) | Span(first: string, last: string, ignored: string)
  datatype Item = Item(base: Base, step: Option<string>)

  function PrintBase(b: Base): string {
    match b
    case Star => "*"
    case From(first) => first
    case Span(first, last, ignored) => first + "-" + last + ignored
  }

  function PrintItem(i: Item): string {
    PrintBase(i.base) + if i.step.Some? then "/" + i.step.value else ""
  }

  function PrintField(items: seq<Item>): string {
    JoinWith(Printed(items), [','])
  }

  function Printed(items: seq<Item>): (r: seq<string>)
    ensures |r| == |items| && forall k :: 0 <= k < |r| ==> r[k] == PrintItem(items[k])
  {
    seq(|items|, k requires 0 <= k < |items| => PrintItem(items[k]))
  }

  predicate WellFormedBase(b: Base) {
    match b
    case Star => true
    case From(first) => Decimal(first).Some?
    case Span(first, last, ignored) =>
      && Decimal(first).Some? && Decimal(last).Some?
      && (ignored == "" || ignored[0] == '-') && Without(ignored, '/') && Without(ignored, ',')
  }

  predicate WellFormed(i: Item) {
    WellFormedBase(i.base) && (i.step.Some? ==> Decimal(i.step.value).Some? && Decimal(i.step.value).value > 0)
  }

  /** What an item stands for: every `step`-th value from `start` up to `end`. */
  datatype Stride = Stride(start: nat, end: nat, step: nat)

  function StrideOf(i: Item, lo: nat, hi: nat): (r: Stride)
    requires WellFormed(i)
    ensures r.step > 0
  {
    var step := if i.step.Some? then Decimal(i.step.value).value else 1;
    match i.base
    case Star => Stride(lo, hi, step)
    case From(first) => var n := Decimal(first).value; Stride(n, if i.step.Some? then hi else n, step)
    case Span(first, last, ignored) => Stride(Decimal(first).value, Decimal(last).value, step)
  }

  predicate InField(s: Stride, lo: nat, hi: nat) {
    lo <= s.start <= s.end <= hi
  }

  /** The values an item denotes, by arithmetic rather than by counting. */
  predicate Denotes(s: Stride, v: int)
    requires s.step > 0
  {
    s.start <= v <= s.end && (v - s.start) % s.step == 0
  }

  // ---- reading items --------------------------------------------------------------------------------------

  function Ignored(parts: seq<string>): string
    requires |parts| >= 2
  {
    if |parts| == 2 then "" else "-" + JoinWith(parts[2..], ['-'])
  }

  function ReadBase(raw: string): Option<Base> {
    if raw == "*" then Some(Star)
    else if '-' in raw then
      SplitIsExact(raw, '-');
      var parts := SplitOn(raw, '-');
      if Decimal(parts[0]).Some? && Decimal(parts[1]).Some?
      then Some(Span(parts[0], parts[1], Ignored(parts)))
      else None
    else if Decimal(raw).Some? then Some(From(raw))
    else None
  }

  function ReadItem(part: string): Option<Item> {
    var parts := SplitOn(part, '/');
    if |parts| > 2 then None
    else
      var step := if |parts| == 2 then Some(parts[1]) else None;
      if step.Some? && (Decimal(step.value).None? || Decimal(step.value).value == 0) then None
      else
        var base := ReadBase(parts[0]);
        if base.None? then None else Some(Item(base.value, step))
  }

  lemma DigitsAvoid(s: string)
    requires Decimal(s).Some?
    ensures s != "" && s != "*" && Without(s, '/') && Without(s, ',') && Without(s, '-')
  {
    assert '0' <= s[0] <= '9';
  }

  lemma SpanText(first: string, last: string, ignored: string)
    requires Decimal(first).Some? && Decimal(last).Some? && (ignored == "" || ignored[0] == '-')
    ensures
      var parts := SplitOn(first + "-" + last + ignored, '-');
      |parts| >= 2 && parts[0] == first && parts[1] == last && Ignored(parts) == ignored
  {
    DigitsAvoid(first);
    DigitsAvoid(last);
    assert first + "-" + last + ignored == first + ['-'] + (last + ignored);
    SplitFirst(first, last + ignored, '-');
    if ignored == "" {
      assert last + ignored == last;
      SplitIsExact(last, '-');
    } else {
      assert last + ignored == last + ['-'] + ignored[1..];
      SplitFirst(last, ignored[1..], '-');
      SplitIsExact(ignored[1..], '-');
      var parts := [first] + ([last] + SplitOn(ignored[1..], '-'));
      assert parts[2..] == SplitOn(ignored[1..], '-');
      assert "-" + ignored[1..] == ignored;
    }
  }

  lemma JoinOne(part: string)
    ensures JoinWith([part], "-") == part
  {
  }

  lemma Regroup(a: string, b: string, c: string, d: string)
    ensures a + (b + c + d) == a + b + (c + d)
  {
  }

  lemma SpanBack(raw: string)
    requires '-' in raw
    ensures
      var parts := SplitOn(raw, '-');
      |parts| >= 2 && raw == parts[0] + "-" + parts[1] + Ignored(parts) &&
      (Ignored(parts) == "" || Ignored(parts)[0] == '-')
  {
    hide SplitOn, JoinWith;
    assert "-" == ['-'];
    SplitIsExact(raw, '-');
    var parts := SplitOn(raw, '-');
    var rest := parts[1..];
    assert parts == [parts[0]] + rest && rest == [parts[1]] + parts[2..];
    JoinStep(parts[0], rest, "-");
    if |parts| > 2 {
      JoinStep(parts[1], parts[2..], "-");
      Regroup(parts[0] + "-", parts[1], "-", JoinWith(parts[2..], "-"));
    } else {
      JoinOne(parts[1]);
      assert rest == [parts[1]];
      assert raw == parts[0] + "-" + parts[1] + "";
    }
  }

  /** A base is read exactly when it is the text of a well-formed one. */
  lemma ReadBaseIffPrinted(raw: string, b: Base)
    requires Without(raw, '/') && Without(raw, ',')
    ensures ReadBase(raw) == Some(b) <==> WellFormedBase(b) && PrintBase(b) == raw
  {
    hide Decimal;
    if '-' in raw {
      SpanBack(raw);
    }
    if WellFormedBase(b) && PrintBase(b) == raw {
      match b
      case Star => assert raw == "*";
      case From(first) => DigitsAvoid(first);
      case Span(first, last, ignored) =>
        SpanText(first, last, ignored);
        DigitsAvoid(first);
        assert raw[|first|] == '-' && raw[0] == first[0] && raw != "*";
    }
    if ReadBase(raw) == Some(b) {
      BaseTextOk(raw, b);
    }
  }

  lemma BaseTextOk(raw: string, b: Base)
    requires Without(raw, '/') && Without(raw, ',') && ReadBase(raw) == Some(b)
    ensures WellFormedBase(b) && PrintBase(b) == raw
  {
    hide Decimal;
    if raw != "*" && '-' in raw {
      SpanBack(raw);
      var parts := SplitOn(raw, '-');
      forall c | c in Ignored(parts) ensures c in raw { }
    }
  }

  lemma BaseAvoids(b: Base)
    requires WellFormedBase(b)
    ensures Without(PrintBase(b), '/') && Without(PrintBase(b), ',')
  {
    hide Decimal;
    match b
    case Star =>
    case From(first) => DigitsAvoid(first);
    case Span(first, last, ignored) => DigitsAvoid(first); DigitsAvoid(last);
  }

  lemma ItemAvoidsComma(i: Item)
    requires WellFormed(i)
    ensures Without(PrintItem(i), ',')
  {
    hide Decimal;
    BaseAvoids(i.base);
    if i.step.Some? { DigitsAvoid(i.step.value); }
  }

  lemma PrintedIsRead(i: Item)
    requires WellFormed(i)
    ensures ReadItem(PrintItem(i)) == Some(i)
  {
    hide Decimal, ReadBase;
    var part := PrintItem(i);
    BaseAvoids(i.base);
    ReadBaseIffPrinted(PrintBase(i.base), i.base);
    if i.step.Some? {
      DigitsAvoid(i.step.value);
      assert part == PrintBase(i.base) + ['/'] + i.step.value;
      SplitFirst(PrintBase(i.base), i.step.value, '/');
      SplitIsExact(i.step.value, '/');
    } else {
      assert part == PrintBase(i.base);
      SplitIsExact(part, '/');
    }
  }

  lemma ReadIsPrinted(part: string, i: Item)
    requires Without(part, ',') && ReadItem(part) == Some(i)
    ensures WellFormed(i) && PrintItem(i) == part
  {
    hide Decimal, ReadBase, WellFormedBase, PrintBase, SplitOn, JoinWith;
    SplitIsExact(part, '/');
    var parts := SplitOn(part, '/');
    assert parts[0] in parts;
    JoinShort(parts, ['/']);
    FirstAvoids(parts[0], part, ',');
    ReadBaseIffPrinted(parts[0], i.base);
  }

  lemma JoinShort(parts: seq<string>, sep: string)
    requires 1 <= |parts| <= 2
    ensures JoinWith(parts, sep) == parts[0] + if |parts| == 2 then sep + parts[1] else ""
  {
    if |parts| == 2 { assert parts[1..] == [parts[1]]; }
  }

  lemma FirstAvoids(first: string, s: string, c: char)
    requires first <= s && Without(s, c)
    ensures Without(first, c)
  {
  }

  /** An item is read exactly when it is the text of a well-formed one. */
  lemma ReadItemIffPrinted(part: string, i: Item)
    requires Without(part, ',')
    ensures ReadItem(part) == Some(i) <==> WellFormed(i) && PrintItem(i) == part
  {
    hide ReadItem, WellFormed, PrintItem;
    if WellFormed(i) { PrintedIsRead(i); }
    if ReadItem(part) == Some(i) { ReadIsPrinted(part, i); }
  }

  function ReadItems(parts: seq<string>): Option<seq<Item>> {
    if parts == [] then Some([])
    else
      var first := ReadItem(parts[0]);
      var rest := ReadItems(parts[1..]);
      if first.None? || rest.None? then None else Some([first.value] + rest.value)
  }

  lemma {:induction false} ReadItemsOneByOne(parts: seq<string>)
    ensures ReadItems(parts).Some? <==> forall k :: 0 <= k < |parts| ==> ReadItem(parts[k]).Some?
    ensures ReadItems(parts).Some? ==>
      && |ReadItems(parts).value| == |parts|
      && forall k :: 0 <= k < |parts| ==> ReadItem(parts[k]) == Some(ReadItems(parts).value[k])
    decreases parts
  {
    hide ReadItem;
    if parts != [] {
      ReadItemsOneByOne(parts[1..]);
      assert parts == [parts[0]] + parts[1..];
    }
  }

  lemma ReadItemsIffPrinted(parts: seq<string>, items: seq<Item>)
    requires forall part <- parts :: Without(part, ',')
    ensures ReadItems(parts) == Some(items) <==> (forall i <- items :: WellFormed(i)) && Printed(items) == parts
  {
    hide ReadItem, ReadItems, WellFormed, PrintItem, Printed;
    ReadItemsOneByOne(parts);
    if |parts| == |items| {
      forall k | 0 <= k < |items|
        ensures ReadItem(parts[k]) == Some(items[k]) <==> WellFormed(items[k]) && PrintItem(items[k]) == parts[k]
      {
        assert parts[k] in parts;
        ReadItemIffPrinted(parts[k], items[k]);
      }
      if ReadItems(parts).Some? {
        var read := ReadItems(parts).value;
        assert read == items <==> forall k :: 0 <= k < |items| ==> read[k] == items[k];
      }
    }
  }

  /**
   * The texts a field accepts, before ranges are checked: exactly the comma-separated lists of well-formed items,
   * each of which is read back.
   */
  lemma FieldTextIffPrinted(raw: string, items: seq<Item>)
    ensures ReadItems(SplitOn(raw, ',')) == Some(items) <==>
      items != [] && (forall i <- items :: WellFormed(i)) && PrintField(items) == raw
  {
    hide ReadItems, WellFormed, PrintItem;
    SplitIsExact(raw, ',');
    ReadItemsIffPrinted(SplitOn(raw, ','), items);
    if items != [] && (forall i <- items :: WellFormed(i)) && PrintField(items) == raw {
      forall part | part in Printed(items) ensures Without(part, ',') {
        var k :| 0 <= k < |items| && part == PrintItem(items[k]);
        ItemAvoidsComma(items[k]);
      }
      SplitJoined(Printed(items), ',');
    }
    assert |Printed(items)| == |items|;
  }

  // ---- the values of a field ------------------------------------------------------------------------------

  /** The values from `v` up that some item denotes, in increasing order. */
  function Values(items: seq<Item>, lo: nat, hi: nat, v: nat): seq<nat>
    requires forall i <- items :: WellFormed(i)
    decreases hi + 1 - v
  {
    if v > hi then []
    else (if exists i <- items :: Denotes(StrideOf(i, lo, hi), v) then [v] else []) + Values(items, lo, hi, v + 1)
  }

  /** What a field's text means: None when it is not accepted. */
  function Field(raw: string, lo: nat, hi: nat): Option<seq<nat>> {
    var read := ReadItems(SplitOn(raw, ','));
    if read.None? then None
    else
      FieldTextIffPrinted(raw, read.value);
      if forall i <- read.value :: InField(StrideOf(i, lo, hi), lo, hi)
      then Some(Values(read.value, lo, hi, lo))
      else None
  }

  ghost predicate Ascending(s: seq<nat>) {
    forall i, j :: 0 <= i < j < |s| ==> s[i] < s[j]
  }

  lemma {:induction false} ValuesAre(items: seq<Item>, lo: nat, hi: nat, v: nat)
    requires forall i <- items :: WellFormed(i)
    ensures Ascending(Values(items, lo, hi, v))
    ensures forall u :: u in Values(items, lo, hi, v) <==>
      v <= u <= hi && exists i <- items :: Denotes(StrideOf(i, lo, hi), u)
    decreases hi + 1 - v
  {
    hide Denotes, StrideOf;
    if v <= hi {
      ValuesAre(items, lo, hi, v + 1);
      var rest := Values(items, lo, hi, v + 1);
      forall k | 0 <= k < |rest| ensures v < rest[k] { assert rest[k] in rest; }
    }
  }

  /**
   * An accepted field yields exactly the values its items denote, all in range and in strictly increasing order.
   */
  lemma FieldMeaning(items: seq<Item>, lo: nat, hi: nat)
    requires items != [] && forall i <- items :: WellFormed(i)
    ensures Field(PrintField(items), lo, hi).Some? <==> forall i <- items :: InField(StrideOf(i, lo, hi), lo, hi)
    ensures Field(PrintField(items), lo, hi).Some? ==>
      var values := Field(PrintField(items), lo, hi).value;
      && Ascending(values)
      && (forall v :: v in values <==> exists i <- items :: Denotes(StrideOf(i, lo, hi), v))
      && (forall v <- values :: lo <= v <= hi)
  {
    hide WellFormed, ReadItems, PrintField, StrideOf;
    FieldTextIffPrinted(PrintField(items), items);
    ValuesAre(items, lo, hi, lo);
    if Field(PrintField(items), lo, hi).Some? {
      forall i, v | i in items && Denotes(StrideOf(i, lo, hi), v) ensures lo <= v <= hi {
        assert InField(StrideOf(i, lo, hi), lo, hi);
      }
    }
  }

  // ---- the parser -----------------------------------------------------------------------------------------

  lemma ModStep(a: nat, b: nat, step: nat)
    requires step > 0 && a % step == 0 && a <= b < a + step
    ensures b % step == 0 <==> b == a
    ensures (a + step) % step == 0
  {
    var k := a / step;
    DivMod(a, step);
    RemainderIs(a, step, k, b - a);
    Distribute(step, k + 1, k);
    RemainderIs(a + step, step, k + 1, 0);
  }

  lemma RemainderIs(x: nat, step: nat, k: nat, r: nat)
    requires r < step && x == step * k
    ensures (x + r) % step == r
  {
    Remainder(step, k, r);
  }

  lemma MulAtLeast(s: nat, d: nat)
    requires d >= 1
    ensures s * d >= s
  {
    assert s * d == s * (d - 1) + s;
    assert s * (d - 1) >= 0;
  }

  lemma Distribute(s: int, q: int, k: int)
    ensures s * (q - k) == s * q - s * k
  {
  }

  lemma Unique(s: nat, k: nat, r: nat, q: nat, m: nat)
    requires r < s && m < s && s * k + r == s * q + m
    ensures r == m
  {
    if q > k {
      Distribute(s, q, k);
      MulAtLeast(s, q - k);
    } else if q < k {
      Distribute(s, k, q);
      MulAtLeast(s, k - q);
    }
  }

  lemma DivMod(x: nat, s: nat)
    requires s > 0
    ensures x == s * (x / s) + x % s && x % s < s
  {
  }

  lemma Remainder(step: nat, k: nat, r: nat)
    requires r < step
    ensures (step * k + r) % step == r
  {
    var x: nat := step * k + r;
    DivMod(x, step);
    Unique(step, k, r, x / step, x % step);
  }

  /** `for (let v = start; v <= end; v += step) out.add(v)`. */
  method AddStride(s: Stride, before: set<nat>) returns (out: set<nat>)
    requires s.step > 0
    ensures forall u: nat :: u in out <==> u in before || Denotes(s, u)
  {
    out := before;
    var v := s.start;
    while v <= s.end
      invariant v >= s.start && (v - s.start) % s.step == 0
      invariant forall u: nat :: u in out <==> u in before || (Denotes(s, u) && u < v)
      decreases s.end + 1 - v
    {
      forall u: nat | v <= u < v + s.step ensures Denotes(s, u) <==> u == v {
        ModStep(v - s.start, u - s.start, s.step);
      }
      ModStep(v - s.start, v - s.start, s.step);
      out := out + {v};
      v := v + s.step;
    }
  }

  /** `[...out].sort((a, b) => a - b)`, the values lying between `v` and `hi`. */
  function Sorted(out: set<nat>, v: nat, hi: nat): seq<nat>
    decreases hi + 1 - v
  {
    if v > hi then [] else (if v in out then [v] else []) + Sorted(out, v + 1, hi)
  }

  lemma {:induction false} SortedIsValues(out: set<nat>, items: seq<Item>, lo: nat, hi: nat, v: nat)
    requires forall i <- items :: WellFormed(i)
    requires forall u: nat :: lo <= u <= hi ==> (u in out <==> exists i <- items :: Denotes(StrideOf(i, lo, hi), u))
    requires lo <= v
    ensures Sorted(out, v, hi) == Values(items, lo, hi, v)
    decreases hi + 1 - v
  {
    hide Denotes, StrideOf;
    if v <= hi {
      SortedIsValues(out, items, lo, hi, v + 1);
    }
  }

  /** Parses one field: the text's meaning, by adding up the strides of its items. */
  method ParseCronField(raw: string, lo: nat, hi: nat) returns (r: Option<seq<nat>>)
    ensures r == Field(raw, lo, hi)
  {
    hide Denotes, StrideOf, ReadItem, WellFormed, InField, SplitOn;
    var parts := SplitOn(raw, ',');
    ReadItemsOneByOne(parts);
    SplitIsExact(raw, ',');
    var out: set<nat> := {};
    ghost var items: seq<Item> := [];
    for k := 0 to |parts|
      invariant |items| == k && forall j :: 0 <= j < k ==> ReadItem(parts[j]) == Some(items[j])
      invariant forall i <- items :: WellFormed(i) && InField(StrideOf(i, lo, hi), lo, hi)
      invariant forall u: nat :: u in out <==> exists i <- items :: WellFormed(i) && Denotes(StrideOf(i, lo, hi), u)
    {
      var read := ReadItem(parts[k]);
      if read.None? { return None; }
      assert parts[k] in parts;
      ReadIsPrinted(parts[k], read.value);
      var stride := StrideOf(read.value, lo, hi);
      if !InField(stride, lo, hi) {
        NotAccepted(raw, lo, hi, k);
        return None;
      }
      out := AddStride(stride, out);
      items := items + [read.value];
    }
    Accepted(raw, lo, hi, items);
    SortedIsValues(out, items, lo, hi, lo);
    return Some(Sorted(out, lo, hi));
  }

  lemma NotAccepted(raw: string, lo: nat, hi: nat, k: nat)
    requires k < |SplitOn(raw, ',')| && ReadItem(SplitOn(raw, ',')[k]).Some?
    requires WellFormed(ReadItem(SplitOn(raw, ',')[k]).value)
    requires !InField(StrideOf(ReadItem(SplitOn(raw, ',')[k]).value, lo, hi), lo, hi)
    ensures Field(raw, lo, hi).None?
  {
    hide ReadItem, StrideOf, WellFormed, InField, SplitOn, Values, ReadItems;
    ReadItemsOneByOne(SplitOn(raw, ','));
    var read := ReadItems(SplitOn(raw, ','));
    if read.Some? {
      FieldTextIffPrinted(raw, read.value);
      assert read.value[k] in read.value;
    }
  }

  lemma Accepted(raw: string, lo: nat, hi: nat, items: seq<Item>)
    requires |items| == |SplitOn(raw, ',')|
    requires forall j :: 0 <= j < |items| ==> ReadItem(SplitOn(raw, ',')[j]) == Some(items[j])
    requires forall i <- items :: WellFormed(i) && InField(StrideOf(i, lo, hi), lo, hi)
    ensures Field(raw, lo, hi) == Some(Values(items, lo, hi, lo))
  {
    hide ReadItem, StrideOf, WellFormed, InField, SplitOn, Values, ReadItems;
    ReadItemsOneByOne(SplitOn(raw, ','));
    assert ReadItems(SplitOn(raw, ',')).value == items;
  }

  lemma {:induction false} SameStrideSameValues(i: Item, j: Item, lo: nat, hi: nat, v: nat)
    requires WellFormed(i) && WellFormed(j) && StrideOf(i, lo, hi) == StrideOf(j, lo, hi)
    ensures Values([i], lo, hi, v) == Values([j], lo, hi, v)
    decreases hi + 1 - v
  {
    hide StrideOf, Denotes, WellFormed;
    if v <= hi {
      SameStrideSameValues(i, j, lo, hi, v + 1);
    }
  }

  /** What follows a second hyphen changes nothing, although no cron grammar allows it. */
  lemma SecondHyphenIgnored(first: string, last: string, ignored: string, step: Option<string>, lo: nat, hi: nat)
    requires WellFormed(Item(Span(first, last, ignored), step))
    ensures Field(PrintField([Item(Span(first, last, ignored), step)]), lo, hi) ==
      Field(PrintField([Item(Span(first, last, ""), step)]), lo, hi)
  {
    hide ReadItems, Values, PrintField;
    var i, j := Item(Span(first, last, ignored), step), Item(Span(first, last, ""), step);
    FieldTextIffPrinted(PrintField([i]), [i]);
    FieldTextIffPrinted(PrintField([j]), [j]);
    SameStrideSameValues(i, j, lo, hi, lo);
    assert i in [i] && j in [j];
  }

  /** An item of the intended grammar: nothing is ignored. */
  predicate Strict(i: Item) { i.base.Span? ==> i.base.ignored == "" }

  /** The positions of two hyphens, with no slash before the second. */
  predicate HyphensAt(part: string, j: nat, k: nat) {
    j < k < |part| && part[j] == '-' && part[k] == '-' && Without(part[..k], '/')
  }

  ghost predicate TwoHyphens(part: string) {
    exists j: nat, k: nat :: HyphensAt(part, j, k)
  }

  /** A slash follows the base, if anything does. */
  lemma SlashAfterBase(i: Item, k: nat)
    requires |PrintBase(i.base)| <= k < |PrintItem(i)|
    ensures PrintItem(i)[|PrintBase(i.base)|] == '/'
    ensures |PrintBase(i.base)| < k ==> !Without(PrintItem(i)[..k], '/')
  {
    if |PrintBase(i.base)| < k {
      assert PrintItem(i)[..k][|PrintBase(i.base)|] == '/';
    }
  }

  /** A base of which nothing is ignored holds no hyphen but the one between its numbers. */
  lemma OneHyphen(b: Base, k: nat)
    requires WellFormedBase(b) && (b.Span? ==> b.ignored == "") && k < |PrintBase(b)|
    ensures PrintBase(b)[k] == '-' ==> b.Span? && k == |b.first|
  {
    hide Decimal;
    match b
    case Star =>
    case From(first) => DigitsAvoid(first); assert first[k] in first;
    case Span(first, last, _) =>
      DigitsAvoid(first);
      DigitsAvoid(last);
      assert PrintBase(b) == first + ['-'] + last;
      if k < |first| {
        assert first[k] in first;
      } else if k > |first| {
        assert last[k - |first| - 1] in last;
      }
  }

  lemma StrictItem(i: Item)
    requires WellFormed(i)
    ensures Strict(i) <==> !TwoHyphens(PrintItem(i))
  {
    hide Decimal, Without;
    var part, base := PrintItem(i), PrintBase(i.base);
    if Strict(i) {
      forall j: nat, k: nat ensures !HyphensAt(part, j, k) {
        if j < k < |base| {
          OneHyphen(i.base, j);
          OneHyphen(i.base, k);
        } else if j < k < |part| {
          SlashAfterBase(i, k);
        }
      }
    } else {
      var j, k := |i.base.first|, |i.base.first| + 1 + |i.base.last|;
      BaseAvoids(i.base);
      assert part[..k] <= base;
      FirstAvoids(part[..k], base, '/');
      assert HyphensAt(part, j, k);
    }
  }

  lemma AllAlike<A, B>(xs: seq<A>, ys: seq<B>, p: A -> bool, q: B -> bool)
    requires |xs| == |ys| && forall k :: 0 <= k < |xs| ==> (p(xs[k]) <==> q(ys[k]))
    ensures (forall x <- xs :: p(x)) <==> (forall y <- ys :: q(y))
  {
    if forall x <- xs :: p(x) {
      forall k | 0 <= k < |ys| ensures q(ys[k]) { assert xs[k] in xs; }
    } else {
      var x :| x in xs && !p(x);
      var k :| 0 <= k < |xs| && xs[k] == x;
      assert ys[k] in ys && !q(ys[k]);
    }
  }

  /**
   * An accepted text belongs to the intended grammar if and only if no comma-separated part holds two hyphens before
   * its slash.
   */
  lemma IntendedIffOneHyphen(raw: string, items: seq<Item>)
    requires ReadItems(SplitOn(raw, ',')) == Some(items)
    ensures (forall i <- items :: Strict(i)) <==> forall part <- SplitOn(raw, ',') :: !TwoHyphens(part)
  {
    hide ReadItems, ReadItem, WellFormed, PrintItem, Strict, TwoHyphens;
    var parts := SplitOn(raw, ',');
    SplitIsExact(raw, ',');
    ReadItemsIffPrinted(parts, items);
    forall k | 0 <= k < |items| ensures Strict(items[k]) <==> !TwoHyphens(parts[k]) {
      assert items[k] in items && Printed(items)[k] == parts[k];
      StrictItem(items[k]);
    }
    assert |parts| == |items|;
    AllAlike(items, parts, Strict, part => !TwoHyphens(part));
  }

  /** A concrete text that is accepted although it is not a range. */
  lemma NotARangeAccepted()
    ensures Field("1-5-9", 0, 59) == Field("1-5", 0, 59) && Field("1-5-9", 0, 59).Some?
  {
    hide Field;
    assert AllDigits("1") && AllDigits("5");
    assert ValueOf("1") == 1 && ValueOf("5") == 5;
    var i, j := Item(Span("1", "5", "-9"), None), Item(Span("1", "5", ""), None);
    assert PrintItem(i) == "1-5-9" && PrintItem(j) == "1-5";
    assert PrintField([i]) == "1-5-9" && PrintField([j]) == "1-5";
    SecondHyphenIgnored("1", "5", "-9", None, 0, 59);
    FieldMeaning([i], 0, 59);
  }
}

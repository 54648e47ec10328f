/**
 * The one-pass scanner that refuses regular expressions whose backtracking can explode
 * (apps/server/src/file-scan-search.ts), against the structural property it looks for.
 */
module RegexScanner {
  import opened Basics

  // ---- the scanner ----------------------------------------------------------------------------------------

  datatype GroupInfo = GroupInfo(quantified: bool, alternation: bool)
  datatype Previous = NoGroup | Closed(group: GroupInfo)

  const FRESH := GroupInfo(false, false)

  predicate IsDigit(c: char) { '0' <= c <= '9' }

  /** First index at or after `i` that does not hold a digit. */
  function DigitsEnd(s: string, i: nat): (j: nat)
    requires i <= |s|
    ensures i <= j <= |s|
    ensures forall k :: i <= k < j ==> IsDigit(s[k])
    ensures j < |s| ==> !IsDigit(s[j])
    decreases |s| - i
  {
    if i < |s| && IsDigit(s[i]) then DigitsEnd(s, i + 1) else i
  }

  /** Length of the counted quantifier that starts at `i` (`{2}`, `{2,}`, `{2,5}`); 0 when none does. */
  function BraceLength(s: string, i: nat): (n: nat)
    requires i < |s|
    ensures i + n <= |s|
  {
    if s[i] != '{' then 0
    else
      var d := DigitsEnd(s, i + 1);
      if d == i + 1 || d == |s| then 0
      else if s[d] == '}' then d + 1 - i
      else if s[d] != ',' then 0
      else
        var e := DigitsEnd(s, d + 1);
        if e < |s| && s[e] == '}' then e + 1 - i else 0
  }

  /** Everything the scanner remembers between two characters. */
  datatype State = State(groups: seq<GroupInfo>, escaped: bool, inClass: bool, previous: Previous)

  function Top(groups: seq<GroupInfo>): GroupInfo
    requires groups != []
  {
    groups[|groups| - 1]
  }

  function WithTop(groups: seq<GroupInfo>, g: GroupInfo): seq<GroupInfo>
    requires groups != []
  {
    groups[..|groups| - 1] + [g]
  }

  /** The group stack after a closing parenthesis, and the group it closed. */
  function Close(groups: seq<GroupInfo>, previous: Previous): (r: (seq<GroupInfo>, Previous))
    requires groups != []
    ensures r.0 != []
  {
    if |groups| == 1 then (groups, previous)
    else
      var g, parents := Top(groups), groups[..|groups| - 1];
      var parent := Top(parents);
      (WithTop(parents, GroupInfo(parent.quantified || g.quantified, parent.alternation || g.alternation)), Closed(g))
  }

  datatype StepResult = Reject | Go(next: nat, state: State)

  /** One turn of the scanner's loop at index `i`. */
  function Step(p: string, i: nat, st: State): (r: StepResult)
    requires i < |p| && st.groups != []
    ensures r.Go? ==> i < r.next <= |p| && r.state.groups != []
  {
    var ch := p[i];
    if st.escaped then
      if '1' <= ch <= '9' then Reject else Go(i + 1, st.(escaped := false, previous := NoGroup))
    else if ch == '\\' then Go(i + 1, st.(escaped := true))
    else if st.inClass then Go(i + 1, st.(inClass := ch != ']'))
    else if ch == '[' then Go(i + 1, st.(inClass := true, previous := NoGroup))
    else if ch == '(' then Go(i + 1, st.(groups := st.groups + [FRESH], previous := NoGroup))
    else if ch == ')' then
      var (groups, previous) := Close(st.groups, st.previous);
      Go(i + 1, st.(groups := groups, previous := previous))
    else if ch == '|' then
      Go(i + 1, st.(groups := WithTop(st.groups, Top(st.groups).(alternation := true)), previous := NoGroup))
    else if ch == '?' && i > 0 && p[i - 1] == '(' then Go(i + 1, st)
    else
      var brace := BraceLength(p, i);
      if ch == '*' || ch == '+' || ch == '?' || brace > 0 then
        if st.previous.Closed? && (st.previous.group.quantified || st.previous.group.alternation) then Reject
        else
          Go(if brace > 0 then i + brace else i + 1,
             st.(groups := WithTop(st.groups, Top(st.groups).(quantified := true)), previous := NoGroup))
      else Go(i + 1, st.(previous := NoGroup))
  }

  /** Whether the scanner, in state `st` at index `i`, gets to the end of the pattern. */
  predicate Accepts(p: string, i: nat, st: State)
    requires i <= |p| && st.groups != []
    decreases |p| - i
  {
    i == |p| || var r := Step(p, i, st); r.Go? && Accepts(p, r.next, r.state)
  }

  lemma AcceptsStep(p: string, i: nat, st: State)
    requires i < |p| && st.groups != []
    ensures
      var r := Step(p, i, st);
      Accepts(p, i, st) == (r.Go? && Accepts(p, r.next, r.state))
  {
  }

  lemma AcceptsAtEnd(p: string, st: State)
    requires st.groups != []
    ensures Accepts(p, |p|, st)
  {
  }

  const START := State([FRESH], false, false, NoGroup)

  /** The scanner's loop. */
  method IsConservativeRegex(pattern: string) returns (ok: bool)
    ensures ok == Accepts(pattern, 0, START)
  {
    hide Accepts;
    var groups := [FRESH];
    var escaped, inClass := false, false;
    var previousGroup := NoGroup;
    var i := 0;
    while i < |pattern|
      invariant i <= |pattern| && groups != []
      invariant Accepts(pattern, 0, START) == Accepts(pattern, i, State(groups, escaped, inClass, previousGroup))
    {
      AcceptsStep(pattern, i, State(groups, escaped, inClass, previousGroup));
      var ch := pattern[i];
      if escaped {
        if '1' <= ch <= '9' { return false; }
        escaped, previousGroup := false, NoGroup;
      } else if ch == '\\' {
        escaped := true;
      } else if inClass {
        if ch == ']' { inClass := false; }
      } else if ch == '[' {
        inClass, previousGroup := true, NoGroup;
      } else if ch == '(' {
        groups, previousGroup := groups + [FRESH], NoGroup;
      } else if ch == ')' {
        if |groups| > 1 {
          previousGroup := Closed(Top(groups));
          groups := groups[..|groups| - 1];
          var parent := Top(groups);
          groups := WithTop(groups, GroupInfo(
            parent.quantified || previousGroup.group.quantified,
            parent.alternation || previousGroup.group.alternation));
        }
      } else if ch == '|' {
        groups, previousGroup := WithTop(groups, Top(groups).(alternation := true)), NoGroup;
      } else if ch == '?' && i > 0 && pattern[i - 1] == '(' {
      } else {
        var brace := BraceLength(pattern, i);
        if ch == '*' || ch == '+' || ch == '?' || brace > 0 {
          if previousGroup.Closed? && (previousGroup.group.quantified || previousGroup.group.alternation) {
            return false;
          }
          groups := WithTop(groups, Top(groups).(quantified := true));
          if brace > 0 { i := i + brace - 1; }
        }
        previousGroup := NoGroup;
      }
      i := i + 1;
    }
    AcceptsAtEnd(pattern, State(groups, escaped, inClass, previousGroup));
    return true;
  }

  // ---- regular expressions and how they are written -------------------------------------------------------

  datatype ClassItem = Plain(c: char) | Escaped(c: char)

  datatype Operator = Star | Plus | Optional | Counted(low: string, upper: Upper)
  datatype Upper = Same | AtMost(high: string)

  datatype Regex =
    | Empty
    | Char(c: char)
    | Escape(c: char)
    | Class(items: seq<ClassItem>)
    | Group(prefix: string, body: Regex)
    | Cat(left: Regex, right: Regex)
    | Alt(left: Regex, right: Regex)
    | Repeat(atom: Regex, op: Operator, lazy: bool)

  function PrintItem(item: ClassItem): string {
    if item.Plain? then [item.c] else ['\\', item.c]
  }

  function PrintItems(items: seq<ClassItem>): string {
    if items == [] then "" else PrintItem(items[0]) + PrintItems(items[1..])
  }

  function PrintOperator(op: Operator): string {
    match op
    case Star => "*"
    case Plus => "+"
    case Optional => "?"
    case Counted(low, upper) => "{" + low + (if upper.Same? then "" else "," + upper.high) + "}"
  }

  function Print(t: Regex): string {
    match t
    case Empty => ""
    case Char(c) => [c]
    case Escape(c) => ['\\', c]
    case Class(items) => "[" + PrintItems(items) + "]"
    case Group(prefix, body) => "(" + prefix + Print(body) + ")"
    case Cat(left, right) => Print(left) + Print(right)
    case Alt(left, right) => Print(left) + "|" + Print(right)
    case Repeat(atom, op, lazy) => Print(atom) + PrintOperator(op) + (if lazy then "?" else "")
  }

  /** A character that means itself wherever it stands outside a class. */
  predicate Ordinary(c: char) { c !in "\\[()|*+?{" }

  predicate AllDigits(s: string) { forall c <- s :: IsDigit(c) }

  /**
   * `t`, followed by the text `after`, is written the way Print writes it: operators stand on atoms, literal
   * characters are not operators, and a literal `{` does not happen to start a counted quantifier.
   */
  predicate WellFormed(t: Regex, after: string) {
    match t
    case Empty | Escape(_) => true
    case Char(c) => Ordinary(c) || (c == '{' && BraceLength("{" + after, 0) == 0)
    case Class(items) => forall item <- items :: item.Plain? ==> item.c != ']' && item.c != '\\'
    case Group(prefix, body) =>
      && (prefix == "" || (prefix[0] == '?' && forall c <- prefix[1..] :: Ordinary(c)))
      && WellFormed(body, ")" + after)
    case Cat(left, right) => WellFormed(left, Print(right) + after) && WellFormed(right, after)
    case Alt(left, right) => WellFormed(left, "|" + Print(right) + after) && WellFormed(right, after)
    case Repeat(atom, op, lazy) =>
      && (atom.Char? || atom.Escape? || atom.Class? || atom.Group?)
      && (op.Counted? ==> op.low != "" && AllDigits(op.low) && (op.upper.AtMost? ==> AllDigits(op.upper.high)))
      && WellFormed(atom, PrintOperator(op) + (if lazy then "?" else "") + after)
  }

  // ---- the structural property ----------------------------------------------------------------------------

  /** A greedy `?` on an escaped parenthesis: the scanner takes its `?` for the start of a group prefix. */
  predicate Misread(t: Regex) {
    t.Repeat? && t.atom == Escape('(') && t.op.Optional? && !t.lazy
  }

  /** `t` contains a quantifier; with `blind`, misread ones do not count. */
  predicate HasQuantifier(t: Regex, blind: bool) {
    match t
    case Empty | Char(_) | Escape(_) | Class(_) => false
    case Group(_, body) => HasQuantifier(body, blind)
    case Cat(left, right) => HasQuantifier(left, blind) || HasQuantifier(right, blind)
    case Alt(left, right) => HasQuantifier(left, blind) || HasQuantifier(right, blind)
    case Repeat(atom, _, _) => !(blind && Misread(t)) || HasQuantifier(atom, blind)
  }

  predicate HasAlternation(t: Regex) {
    match t
    case Empty | Char(_) | Escape(_) | Class(_) => false
    case Group(_, body) => HasAlternation(body)
    case Cat(left, right) => HasAlternation(left) || HasAlternation(right)
    case Alt(_, _) => true
    case Repeat(atom, _, _) => HasAlternation(atom)
  }

  /** No escaped digit 1 to 9, and no quantifier on a group that contains a quantifier or an alternation. */
  predicate Conservative(t: Regex, blind: bool) {
    match t
    case Empty | Char(_) => true
    case Escape(c) => !('1' <= c <= '9')
    case Class(items) => NoEscapedDigit(items)
    case Group(_, body) => Conservative(body, blind)
    case Cat(left, right) => Conservative(left, blind) && Conservative(right, blind)
    case Alt(left, right) => Conservative(left, blind) && Conservative(right, blind)
    case Repeat(atom, _, _) =>
      Conservative(atom, blind) && (atom.Group? ==> !HasQuantifier(atom.body, blind) && !HasAlternation(atom.body))
  }

  /** Some quantified group contains misread quantifiers, and nothing else that makes it dangerous. */
  predicate HidesDanger(t: Regex) {
    match t
    case Empty | Char(_) | Escape(_) | Class(_) => false
    case Group(_, body) => HidesDanger(body)
    case Cat(left, right) => HidesDanger(left) || HidesDanger(right)
    case Alt(left, right) => HidesDanger(left) || HidesDanger(right)
    case Repeat(atom, _, _) =>
      || HidesDanger(atom)
      || (atom.Group? && HasQuantifier(atom.body, false) && !HasQuantifier(atom.body, true) &&
         !HasAlternation(atom.body))
  }

  // ---- counted quantifiers, as text -----------------------------------------------------------------------

  lemma {:induction false} DigitsEndIs(s: string, i: nat, j: nat)
    requires i <= j <= |s| && AllDigits(s[i..j]) && (j < |s| ==> !IsDigit(s[j]))
    ensures DigitsEnd(s, i) == j
    decreases j - i
  {
    if i < j {
      assert s[i] == s[i..j][0];
      assert forall c <- s[i + 1..j] :: c in s[i..j];
      DigitsEndIs(s, i + 1, j);
    }
  }

  lemma {:induction false} DigitsEndShift(s: string, at: nat, i: nat)
    requires at + i <= |s|
    ensures DigitsEnd(s, at + i) == at + DigitsEnd(s[at..], i)
    decreases |s| - i
  {
    if at + i < |s| && IsDigit(s[at + i]) {
      DigitsEndShift(s, at, i + 1);
    }
  }

  /** Whether a brace starts a counted quantifier depends only on the text from the brace on. */
  lemma BraceLengthShift(s: string, at: nat)
    requires at < |s|
    ensures BraceLength(s, at) == BraceLength(s[at..], 0)
  {
    DigitsEndShift(s, at, 1);
    var d := DigitsEnd(s[at..], 1);
    if at + d < |s| {
      DigitsEndShift(s, at, d + 1);
    }
  }

  lemma CountedLength(op: Operator, s: string, i: nat, after: string)
    requires i < |s| && op.Counted? && s[i..] == PrintOperator(op) + after
    requires op.low != "" && AllDigits(op.low) && (op.upper.AtMost? ==> AllDigits(op.upper.high))
    ensures BraceLength(s, i) == |PrintOperator(op)|
  {
    hide BraceLength, AllDigits;
    BraceLengthShift(s, i);
    CountedText(op, after);
    if op.upper.Same? {
      ExactLength(op.low, after);
    } else {
      RangeLength(op.low, op.upper.high, after);
    }
  }

  lemma CountedText(op: Operator, after: string)
    requires op.Counted?
    ensures PrintOperator(op) + after ==
      "{" + op.low + if op.upper.Same? then "}" + after else "," + (op.upper.high + ("}" + after))
    ensures |PrintOperator(op)| == |op.low| + 2 + if op.upper.Same? then 0 else |op.upper.high| + 1
  {
    if op.upper.Same? {
      assert "{" + op.low + "" + "}" == "{" + op.low + "}";
      Associate("{" + op.low, "}", after);
    } else {
      Associate("{" + op.low, "," + op.upper.high, "}");
      Associate("{" + op.low, "," + op.upper.high + "}", after);
      Associate("," + op.upper.high, "}", after);
      Associate(",", op.upper.high, "}" + after);
    }
  }

  lemma ExactLength(low: string, after: string)
    requires low != "" && AllDigits(low)
    ensures BraceLength("{" + low + ("}" + after), 0) == |low| + 2
  {
    var text := "{" + low + ("}" + after);
    assert text[1..1 + |low|] == low && text[1 + |low|] == '}';
    DigitsEndIs(text, 1, 1 + |low|);
  }

  lemma RangeLength(low: string, high: string, after: string)
    requires low != "" && AllDigits(low) && AllDigits(high)
    ensures BraceLength("{" + low + ("," + (high + ("}" + after))), 0) == |low| + |high| + 3
  {
    var text := "{" + low + ("," + (high + ("}" + after)));
    var d := 1 + |low|;
    assert text[1..d] == low && text[d] == ',';
    DigitsEndIs(text, 1, d);
    assert text[d + 1..d + 1 + |high|] == high && text[d + 1 + |high|] == '}';
    DigitsEndIs(text, d + 1, d + 1 + |high|);
  }

  predicate CountedOk(op: Operator) {
    op.Counted? && op.low != "" && AllDigits(op.low) && (op.upper.AtMost? ==> AllDigits(op.upper.high))
  }

  /** The text at `i` begins with the counted quantifier `op`. */
  predicate CountedAt(s: string, i: nat, op: Operator) {
    CountedOk(op) && i <= |s| && PrintOperator(op) <= s[i..]
  }

  lemma DigitIs(c: char)
    ensures IsDigit(c) <==> 48 <= c as int <= 57
  {
  }

  /** The length found at a position is that of the counted quantifier that begins there; 0 when none does. */
  lemma BraceIffCounted(s: string, i: nat, op: Operator)
    requires i < |s|
    ensures CountedAt(s, i, op) ==> BraceLength(s, i) == |PrintOperator(op)|
    ensures BraceLength(s, i) > 0 ==> exists found :: CountedAt(s, i, found)
  {
    hide BraceLength, AllDigits;
    if CountedAt(s, i, op) {
      var n := |PrintOperator(op)|;
      assert s[i..] == PrintOperator(op) + s[i..][n..];
      CountedLength(op, s, i, s[i..][n..]);
    }
    if BraceLength(s, i) > 0 {
      var found := Found(s, i);
    }
  }

  lemma Found(s: string, i: nat) returns (op: Operator)
    requires i < |s| && BraceLength(s, i) > 0
    ensures CountedAt(s, i, op)
  {
    hide AllDigits, PrintOperator;
    var d := DigitsEnd(s, i + 1);
    DigitsThere(s, i + 1, d);
    if s[d] == '}' {
      op := Counted(s[i + 1..d], Same);
      ExactText(s, i, d);
    } else {
      var e := DigitsEnd(s, d + 1);
      DigitsThere(s, d + 1, e);
      op := Counted(s[i + 1..d], AtMost(s[d + 1..e]));
      RangeText(s, i, d, e);
    }
  }

  lemma DigitsThere(s: string, i: nat, j: nat)
    requires i <= j <= |s| && forall k :: i <= k < j ==> IsDigit(s[k])
    ensures AllDigits(s[i..j])
  {
  }

  lemma ExactText(s: string, i: nat, d: nat)
    requires i + 1 < d < |s| && s[i] == '{' && s[d] == '}'
    ensures PrintOperator(Counted(s[i + 1..d], Same)) <= s[i..]
  {
    assert "{" + s[i + 1..d] + "" + "}" == s[i..d + 1];
  }

  lemma RangeText(s: string, i: nat, d: nat, e: nat)
    requires i + 1 < d < e < |s| && s[i] == '{' && s[d] == ',' && s[e] == '}'
    ensures PrintOperator(Counted(s[i + 1..d], AtMost(s[d + 1..e]))) <= s[i..]
  {
    assert "{" + s[i + 1..d] + ("," + s[d + 1..e]) + "}" == s[i..e + 1];
  }

  /** A brace is a literal character exactly where no counted quantifier begins. */
  lemma LiteralBrace(after: string)
    ensures WellFormed(Char('{'), after) <==> forall op :: !CountedAt("{" + after, 0, op)
  {
    hide BraceLength, CountedAt;
    if op :| CountedAt("{" + after, 0, op) {
      BraceIffCounted("{" + after, 0, op);
      CountedHasLength("{" + after, op);
    } else {
      BraceIffCounted("{" + after, 0, Star);
    }
  }

  lemma CountedHasLength(s: string, op: Operator)
    requires CountedAt(s, 0, op)
    ensures |PrintOperator(op)| > 0
  {
  }

  // ---- scanning a printed expression ----------------------------------------------------------------------

  function At(outer: seq<GroupInfo>, g: GroupInfo, previous: Previous): State {
    State(outer + [g], false, false, previous)
  }

  function Seen(t: Regex): GroupInfo {
    GroupInfo(HasQuantifier(t, true), HasAlternation(t))
  }

  function Join(g: GroupInfo, h: GroupInfo): GroupInfo {
    GroupInfo(g.quantified || h.quantified, g.alternation || h.alternation)
  }

  /** What the scanner takes for the group a quantifier would apply to, after reading `t`. */
  function PreviousAfter(t: Regex, previous: Previous): Previous {
    match t
    case Empty => previous
    case Char(_) | Escape(_) | Class(_) | Repeat(_, _, _) => NoGroup
    case Group(_, body) => Closed(Seen(body))
    case Cat(left, right) => PreviousAfter(right, PreviousAfter(left, previous))
    case Alt(left, right) => PreviousAfter(right, NoGroup)
  }

  lemma Suffix(p: string, i: nat, a: string, b: string)
    requires i <= |p| && p[i..] == a + b
    ensures i + |a| <= |p| && p[i + |a|..] == b
    ensures a != "" ==> p[i] == a[0] && p[i + |a| - 1] == a[|a| - 1]
  {
    assert p[i..][|a|..] == b;
    if a != "" {
      assert p[i..][0] == a[0] && p[i..][|a| - 1] == a[|a| - 1];
    }
  }

  lemma Stack(outer: seq<GroupInfo>, g: GroupInfo, h: GroupInfo)
    ensures Top(outer + [g]) == g && WithTop(outer + [g], h) == outer + [h]
    ensures (outer + [g])[..|outer|] == outer
  {
  }

  /** Reading one character that is not special only forgets the previous group. */
  lemma ScanOrdinary(p: string, i: nat, outer: seq<GroupInfo>, g: GroupInfo, previous: Previous)
    requires i < |p| && (Ordinary(p[i]) || (p[i] == '{' && BraceLength(p, i) == 0))
    ensures Accepts(p, i, At(outer, g, previous)) == Accepts(p, i + 1, At(outer, g, NoGroup))
  {
  }

  lemma {:induction false} ScanOrdinaries(p: string, i: nat, n: nat, outer: seq<GroupInfo>, g: GroupInfo)
    requires i + n <= |p| && forall k :: i <= k < i + n ==> Ordinary(p[k])
    ensures Accepts(p, i, At(outer, g, NoGroup)) == Accepts(p, i + n, At(outer, g, NoGroup))
    decreases n
  {
    if n > 0 {
      ScanOrdinary(p, i, outer, g, NoGroup);
      ScanOrdinaries(p, i + 1, n - 1, outer, g);
    }
  }

  predicate NoEscapedDigit(items: seq<ClassItem>) {
    forall item <- items :: item.Escaped? ==> !('1' <= item.c <= '9')
  }

  /** Reading one item of a class. */
  lemma ScanItem(item: ClassItem, p: string, i: nat, rest: string, outer: seq<GroupInfo>, g: GroupInfo)
    requires i <= |p| && p[i..] == PrintItem(item) + rest
    requires item.Plain? ==> item.c != ']' && item.c != '\\'
    ensures i + |PrintItem(item)| <= |p| && p[i + |PrintItem(item)|..] == rest
    ensures Accepts(p, i, At(outer, g, NoGroup).(inClass := true)) ==
      (NoEscapedDigit([item]) && Accepts(p, i + |PrintItem(item)|, At(outer, g, NoGroup).(inClass := true)))
  {
    Suffix(p, i, PrintItem(item), rest);
    assert NoEscapedDigit([item]) == (item.Escaped? ==> !('1' <= item.c <= '9'));
    assert p[i + |PrintItem(item)| - 1] == item.c;
  }

  /** Reading the items of a class, up to its closing bracket. */
  lemma {:induction false} ScanItems(
    items: seq<ClassItem>, p: string, i: nat, after: string, outer: seq<GroupInfo>, g: GroupInfo)
    requires i <= |p| && p[i..] == PrintItems(items) + ("]" + after)
    requires forall item <- items :: item.Plain? ==> item.c != ']' && item.c != '\\'
    ensures i + |PrintItems(items)| + 1 <= |p|
    ensures Accepts(p, i, At(outer, g, NoGroup).(inClass := true)) ==
      (NoEscapedDigit(items) && Accepts(p, i + |PrintItems(items)| + 1, At(outer, g, NoGroup)))
    decreases items
  {
    hide Accepts;
    if items == [] {
      ScanClassEnd(p, i, after, outer, g);
    } else {
      var rest := PrintItems(items[1..]) + ("]" + after);
      Associate(PrintItem(items[0]), PrintItems(items[1..]), "]" + after);
      ScanItem(items[0], p, i, rest, outer, g);
      ScanItems(items[1..], p, i + |PrintItem(items[0])|, after, outer, g);
      assert items == [items[0]] + items[1..];
      assert NoEscapedDigit(items) == (NoEscapedDigit([items[0]]) && NoEscapedDigit(items[1..]));
    }
  }

  lemma ScanClassEnd(p: string, i: nat, after: string, outer: seq<GroupInfo>, g: GroupInfo)
    requires i <= |p| && p[i..] == "" + ("]" + after)
    ensures i + 1 <= |p|
    ensures Accepts(p, i, At(outer, g, NoGroup).(inClass := true)) == Accepts(p, i + 1, At(outer, g, NoGroup))
  {
    Associate("", "]", after);
    Suffix(p, i, "]", after);
  }

  lemma ScanBar(p: string, i: nat, outer: seq<GroupInfo>, g: GroupInfo, previous: Previous)
    requires i < |p| && p[i] == '|'
    ensures Accepts(p, i, At(outer, g, previous)) == Accepts(p, i + 1, At(outer, g.(alternation := true), NoGroup))
  {
    Stack(outer, g, g.(alternation := true));
  }

  lemma ScanEscape(c: char, p: string, i: nat, after: string, outer: seq<GroupInfo>, g: GroupInfo, previous: Previous)
    requires i <= |p| && p[i..] == ['\\', c] + after
    ensures i + 2 <= |p|
    ensures Accepts(p, i, At(outer, g, previous)) == (!('1' <= c <= '9') && Accepts(p, i + 2, At(outer, g, NoGroup)))
  {
    Suffix(p, i, ['\\', c], after);
    var st := At(outer, g, previous).(escaped := true);
    assert Step(p, i, At(outer, g, previous)) == Go(i + 1, st);
  }

  lemma ScanClass(
    items: seq<ClassItem>, p: string, i: nat, after: string, outer: seq<GroupInfo>, g: GroupInfo, previous: Previous)
    requires i <= |p| && p[i..] == "[" + PrintItems(items) + "]" + after
    requires forall item <- items :: item.Plain? ==> item.c != ']' && item.c != '\\'
    ensures i + |PrintItems(items)| + 2 <= |p|
    ensures Accepts(p, i, At(outer, g, previous)) ==
      (NoEscapedDigit(items) && Accepts(p, i + |PrintItems(items)| + 2, At(outer, g, NoGroup)))
  {
    hide PrintItems, NoEscapedDigit, Accepts;
    var rest := PrintItems(items) + ("]" + after);
    assert p[i..] == "[" + rest;
    Suffix(p, i, "[", rest);
    ScanItems(items, p, i + 1, after, outer, g);
    ScanClassStart(p, i, outer, g, previous);
  }

  lemma ScanClassStart(p: string, i: nat, outer: seq<GroupInfo>, g: GroupInfo, previous: Previous)
    requires i < |p| && p[i] == '['
    ensures Accepts(p, i, At(outer, g, previous)) == Accepts(p, i + 1, At(outer, g, NoGroup).(inClass := true))
  {
    assert Step(p, i, At(outer, g, previous)) == Go(i + 1, At(outer, g, NoGroup).(inClass := true));
  }

  lemma ScanOpen(p: string, i: nat, outer: seq<GroupInfo>, g: GroupInfo, previous: Previous)
    requires i < |p| && p[i] == '('
    ensures Accepts(p, i, At(outer, g, previous)) == Accepts(p, i + 1, At(outer + [g], FRESH, NoGroup))
  {
  }

  lemma ScanClose(p: string, i: nat, outer: seq<GroupInfo>, parent: GroupInfo, g: GroupInfo, previous: Previous)
    requires i < |p| && p[i] == ')'
    ensures Accepts(p, i, At(outer + [parent], g, previous)) == Accepts(p, i + 1, At(outer, Join(parent, g), Closed(g)))
  {
    Stack(outer + [parent], g, g);
    Stack(outer, parent, Join(parent, g));
  }

  /** Reading a quantifier that is not misread. */
  lemma ScanOperator(op: Operator, p: string, i: nat, after: string, outer: seq<GroupInfo>, g: GroupInfo,
    previous: Previous)
    requires i < |p| && p[i..] == PrintOperator(op) + after
    requires op.Counted? ==> op.low != "" && AllDigits(op.low) && (op.upper.AtMost? ==> AllDigits(op.upper.high))
    requires op.Optional? ==> i == 0 || p[i - 1] != '('
    ensures i + |PrintOperator(op)| <= |p|
    ensures p[i + |PrintOperator(op)| - 1] != '('
    ensures Accepts(p, i, At(outer, g, previous)) ==
      (!(previous.Closed? && (previous.group.quantified || previous.group.alternation)) &&
       Accepts(p, i + |PrintOperator(op)|, At(outer, g.(quantified := true), NoGroup)))
  {
    hide BraceLength, DigitsEnd, Accepts, AllDigits;
    Suffix(p, i, PrintOperator(op), after);
    if op.Counted? {
      CountedLength(op, p, i, after);
    }
    ScanQuantified(p, i, |PrintOperator(op)|, outer, g, previous);
  }

  lemma ScanQuantified(p: string, i: nat, n: nat, outer: seq<GroupInfo>, g: GroupInfo, previous: Previous)
    requires i + n <= |p| && n > 0
    requires if p[i] == '{' then BraceLength(p, i) == n else n == 1 && (p[i] == '*' || p[i] == '+' || p[i] == '?')
    requires p[i] == '?' ==> i == 0 || p[i - 1] != '('
    ensures Accepts(p, i, At(outer, g, previous)) ==
      (!(previous.Closed? && (previous.group.quantified || previous.group.alternation)) &&
       Accepts(p, i + n, At(outer, g.(quantified := true), NoGroup)))
  {
    hide DigitsEnd;
    Stack(outer, g, g.(quantified := true));
  }

  /** Reading the optional `?` that makes a quantifier lazy changes nothing. */
  lemma ScanLazy(lazy: bool, p: string, i: nat, after: string, outer: seq<GroupInfo>, g: GroupInfo)
    requires 0 < i <= |p| && p[i..] == (if lazy then "?" else "") + after && p[i - 1] != '(' && g.quantified
    ensures i + (if lazy then 1 else 0) <= |p|
    ensures Accepts(p, i, At(outer, g, NoGroup)) == Accepts(p, i + (if lazy then 1 else 0), At(outer, g, NoGroup))
  {
    if lazy {
      Suffix(p, i, "?", after);
      Stack(outer, g, g);
      assert g.(quantified := true) == g;
    }
  }

  /**
   * Reading a printed expression: the scanner goes on exactly when the expression is conservative as it sees it,
   * having noted in the enclosing group what the expression contains.
   */
  lemma {:induction false} ScanPrinted(
    t: Regex, p: string, i: nat, after: string, outer: seq<GroupInfo>, g: GroupInfo, previous: Previous)
    requires i <= |p| && p[i..] == Print(t) + after && WellFormed(t, after)
    ensures i + |Print(t)| <= |p|
    ensures Accepts(p, i, At(outer, g, previous)) ==
      (Conservative(t, true) && Accepts(p, i + |Print(t)|, At(outer, Join(g, Seen(t)), PreviousAfter(t, previous))))
    decreases t, 1
  {
    hide Accepts, Print, PrintItems, PrintOperator, WellFormed, Conservative, Seen, Join, PreviousAfter, BraceLength,
      NoEscapedDigit, Ordinary;
    Suffix(p, i, Print(t), after);
    PrintShape(t, after);
    SeenShape(t, after, g, previous);
    match t
    case Empty =>
    case Char(c) => ScanChar(c, p, i, after, outer, g, previous);
    case Escape(c) => ScanEscape(c, p, i, after, outer, g, previous);
    case Class(items) => ScanClass(items, p, i, after, outer, g, previous);
    case Group(prefix, body) => ScanGroup(prefix, body, p, i, after, outer, g, previous);
    case Cat(left, right) => ScanCat(left, right, p, i, after, outer, g, previous);
    case Alt(left, right) => ScanAlternation(left, right, p, i, after, outer, g, previous);
    case Repeat(atom, op, lazy) => ScanRepeat(atom, op, lazy, p, i, after, outer, g, previous);
  }

  /** How a printed expression and what follows it divide into parts. */
  lemma PrintShape(t: Regex, after: string)
    ensures t.Empty? ==> |Print(t)| == 0
    ensures t.Char? ==> Print(t) == [t.c]
    ensures t.Escape? ==> Print(t) == ['\\', t.c]
    ensures t.Class? ==> Print(t) == "[" + PrintItems(t.items) + "]"
    ensures t.Group? ==>
      && Print(t) + after == "(" + (t.prefix + (Print(t.body) + (")" + after)))
      && |Print(t)| == |t.prefix| + |Print(t.body)| + 2
    ensures t.Cat? ==>
      && Print(t) + after == Print(t.left) + (Print(t.right) + after)
      && |Print(t)| == |Print(t.left)| + |Print(t.right)|
    ensures t.Alt? ==>
      && Print(t) + after == Print(t.left) + ("|" + (Print(t.right) + after))
      && |Print(t)| == |Print(t.left)| + 1 + |Print(t.right)|
    ensures t.Repeat? ==>
      && Print(t) + after == Print(t.atom) + (PrintOperator(t.op) + ((if t.lazy then "?" else "") + after))
      && |Print(t)| == |Print(t.atom)| + |PrintOperator(t.op)| + (if t.lazy then 1 else 0)
  {
    match t
    case Empty | Char(_) | Escape(_) | Class(_) =>
    case Group(prefix, body) =>
      Associate("(" + prefix + Print(body), ")", after);
      Associate("(" + prefix, Print(body), ")" + after);
      Associate("(", prefix, Print(body) + (")" + after));
    case Cat(left, right) =>
      Associate(Print(left), Print(right), after);
    case Alt(left, right) =>
      Associate(Print(left) + "|", Print(right), after);
      Associate(Print(left), "|", Print(right) + after);
    case Repeat(atom, op, lazy) =>
      Associate(Print(atom) + PrintOperator(op), if lazy then "?" else "", after);
      Associate(Print(atom), PrintOperator(op), (if lazy then "?" else "") + after);
  }

  /** The scanner's view of an expression, from its parts. */
  lemma SeenShape(t: Regex, after: string, g: GroupInfo, previous: Previous)
    requires WellFormed(t, after)
    ensures t.Empty? || t.Char? || t.Escape? || t.Class? ==> Join(g, Seen(t)) == g
    ensures t.Empty? ==> PreviousAfter(t, previous) == previous
    ensures t.Char? || t.Escape? || t.Class? || t.Repeat? ==> PreviousAfter(t, previous) == NoGroup
    ensures t.Empty? || t.Char? ==> Conservative(t, true)
    ensures t.Char? ==> Ordinary(t.c) || (t.c == '{' && BraceLength("{" + after, 0) == 0)
    ensures t.Escape? ==> Conservative(t, true) == !('1' <= t.c <= '9')
    ensures t.Class? ==>
      && (forall item <- t.items :: item.Plain? ==> item.c != ']' && item.c != '\\')
      && Conservative(t, true) == NoEscapedDigit(t.items)
    ensures t.Group? ==>
      && (t.prefix == "" || (t.prefix[0] == '?' && forall c <- t.prefix[1..] :: Ordinary(c)))
      && WellFormed(t.body, ")" + after)
      && Conservative(t, true) == Conservative(t.body, true)
      && Seen(t) == Seen(t.body) && PreviousAfter(t, previous) == Closed(Seen(t.body))
    ensures t.Cat? ==>
      && WellFormed(t.left, Print(t.right) + after) && WellFormed(t.right, after)
      && Conservative(t, true) == (Conservative(t.left, true) && Conservative(t.right, true))
      && Join(g, Seen(t)) == Join(Join(g, Seen(t.left)), Seen(t.right))
      && PreviousAfter(t, previous) == PreviousAfter(t.right, PreviousAfter(t.left, previous))
    ensures t.Alt? ==>
      && WellFormed(t.left, "|" + (Print(t.right) + after)) && WellFormed(t.right, after)
      && Conservative(t, true) == (Conservative(t.left, true) && Conservative(t.right, true))
      && Join(g, Seen(t)) == Join(Join(g, Seen(t.left)).(alternation := true), Seen(t.right))
      && PreviousAfter(t, previous) == PreviousAfter(t.right, NoGroup)
  {
    if t.Alt? { Associate("|", Print(t.right), after); }
  }

  lemma ScanChar(c: char, p: string, i: nat, after: string, outer: seq<GroupInfo>, g: GroupInfo, previous: Previous)
    requires i <= |p| && p[i..] == [c] + after
    requires Ordinary(c) || (c == '{' && BraceLength("{" + after, 0) == 0)
    ensures i < |p|
    ensures Accepts(p, i, At(outer, g, previous)) == Accepts(p, i + 1, At(outer, g, NoGroup))
  {
    hide Accepts;
    Suffix(p, i, [c], after);
    BraceLengthShift(p, i);
    ScanOrdinary(p, i, outer, g, previous);
  }

  lemma Enclosed(p: string, i: nat, prefix: string, inner: string, after: string)
    requires i <= |p| && p[i..] == "(" + (prefix + (inner + (")" + after)))
    ensures
      var k := i + 1 + |prefix|;
      && k + |inner| < |p| && p[i] == '(' && p[k + |inner|] == ')'
      && p[i + 1..] == prefix + (inner + (")" + after)) && p[k..] == inner + (")" + after)
  {
    Suffix(p, i, "(", prefix + (inner + (")" + after)));
    Suffix(p, i + 1, prefix, inner + (")" + after));
    Suffix(p, i + 1 + |prefix|, inner, ")" + after);
    Suffix(p, i + 1 + |prefix| + |inner|, ")", after);
  }

  lemma {:induction false} ScanGroup(
    prefix: string, body: Regex, p: string, i: nat, after: string,
    outer: seq<GroupInfo>, g: GroupInfo, previous: Previous)
    requires i <= |p| && p[i..] == "(" + (prefix + (Print(body) + (")" + after))) && WellFormed(body, ")" + after)
    requires prefix == "" || (prefix[0] == '?' && forall c <- prefix[1..] :: Ordinary(c))
    ensures i + |prefix| + |Print(body)| + 2 <= |p|
    ensures Accepts(p, i, At(outer, g, previous)) ==
      (Conservative(body, true) &&
       Accepts(p, i + |prefix| + |Print(body)| + 2, At(outer, Join(g, Seen(body)), Closed(Seen(body)))))
    decreases body, 2
  {
    hide Accepts, Conservative, Seen, Print, WellFormed, PreviousAfter;
    var inside := Print(body) + (")" + after);
    Enclosed(p, i, prefix, Print(body), after);
    ScanOpen(p, i, outer, g, previous);
    ScanPrefix(prefix, p, i + 1, inside, outer + [g], FRESH);
    var k := i + 1 + |prefix|;
    ScanPrinted(body, p, k, ")" + after, outer + [g], FRESH, NoGroup);
    assert Join(FRESH, Seen(body)) == Seen(body);
    ScanClose(p, k + |Print(body)|, outer, g, Seen(body), PreviousAfter(body, NoGroup));
  }

  lemma ScanPrefix(prefix: string, p: string, i: nat, after: string, outer: seq<GroupInfo>, g: GroupInfo)
    requires 0 < i <= |p| && p[i - 1] == '(' && p[i..] == prefix + after
    requires prefix == "" || (prefix[0] == '?' && forall c <- prefix[1..] :: Ordinary(c))
    ensures i + |prefix| <= |p|
    ensures Accepts(p, i, At(outer, g, NoGroup)) == Accepts(p, i + |prefix|, At(outer, g, NoGroup))
  {
    hide Accepts, Ordinary;
    if prefix != "" {
      Suffix(p, i, prefix, after);
      forall k | i + 1 <= k < i + |prefix| ensures Ordinary(p[k]) {
        assert p[k] == p[i..][k - i] == prefix[1..][k - i - 1];
      }
      ScanQuestion(p, i, outer, g);
      ScanOrdinaries(p, i + 1, |prefix| - 1, outer, g);
    }
  }

  /** A question mark just after a parenthesis belongs to the prefix of the group. */
  lemma ScanQuestion(p: string, i: nat, outer: seq<GroupInfo>, g: GroupInfo)
    requires 0 < i < |p| && p[i - 1] == '(' && p[i] == '?'
    ensures Accepts(p, i, At(outer, g, NoGroup)) == Accepts(p, i + 1, At(outer, g, NoGroup))
  {
    hide BraceLength;
  }

  lemma {:induction false} ScanCat(
    left: Regex, right: Regex, p: string, i: nat, after: string,
    outer: seq<GroupInfo>, g: GroupInfo, previous: Previous)
    requires i <= |p| && p[i..] == Print(left) + (Print(right) + after)
    requires WellFormed(left, Print(right) + after) && WellFormed(right, after)
    ensures i + |Print(left)| + |Print(right)| <= |p|
    ensures Accepts(p, i, At(outer, g, previous)) ==
      (Conservative(left, true) && Conservative(right, true) &&
       Accepts(p, i + |Print(left)| + |Print(right)|,
               At(outer, Join(Join(g, Seen(left)), Seen(right)), PreviousAfter(right, PreviousAfter(left, previous)))))
    decreases Cat(left, right), 0
  {
    hide Accepts, Conservative, Seen, Join, Print, WellFormed, PreviousAfter;
    Suffix(p, i, Print(left), Print(right) + after);
    ScanPrinted(left, p, i, Print(right) + after, outer, g, previous);
    ScanPrinted(right, p, i + |Print(left)|, after, outer, Join(g, Seen(left)), PreviousAfter(left, previous));
  }

  lemma {:induction false} ScanAlternation(
    left: Regex, right: Regex, p: string, i: nat, after: string,
    outer: seq<GroupInfo>, g: GroupInfo, previous: Previous)
    requires i <= |p| && p[i..] == Print(left) + ("|" + (Print(right) + after))
    requires WellFormed(left, "|" + (Print(right) + after)) && WellFormed(right, after)
    ensures i + |Print(left)| + 1 + |Print(right)| <= |p|
    ensures Accepts(p, i, At(outer, g, previous)) ==
      (Conservative(left, true) && Conservative(right, true) &&
       Accepts(p, i + |Print(left)| + 1 + |Print(right)|,
               At(outer, Join(Join(g, Seen(left)).(alternation := true), Seen(right)), PreviousAfter(right, NoGroup))))
    decreases Alt(left, right), 0
  {
    hide Accepts, Conservative, Seen, Join, Print, WellFormed, PreviousAfter;
    var second := "|" + (Print(right) + after);
    Suffix(p, i, Print(left), second);
    ScanPrinted(left, p, i, second, outer, g, previous);
    var bar, h := i + |Print(left)|, Join(g, Seen(left));
    Suffix(p, bar, "|", Print(right) + after);
    ScanBar(p, bar, outer, h, PreviousAfter(left, previous));
    ScanPrinted(right, p, bar + 1, after, outer, h.(alternation := true), NoGroup);
  }

  lemma {:induction false} ScanRepeat(
    atom: Regex, op: Operator, lazy: bool, p: string, i: nat, after: string,
    outer: seq<GroupInfo>, g: GroupInfo, previous: Previous)
    requires i <= |p| && p[i..] == Print(atom) + (PrintOperator(op) + ((if lazy then "?" else "") + after))
    requires WellFormed(Repeat(atom, op, lazy), after)
    ensures i + |Print(atom)| + |PrintOperator(op)| + (if lazy then 1 else 0) <= |p|
    ensures
      var t := Repeat(atom, op, lazy);
      Accepts(p, i, At(outer, g, previous)) ==
      (Conservative(t, true) &&
       Accepts(p, i + |Print(atom)| + |PrintOperator(op)| + (if lazy then 1 else 0),
         At(outer, Join(g, Seen(t)), NoGroup)))
    decreases Repeat(atom, op, lazy), 0
  {
    hide Accepts, Print, PrintOperator, BraceLength, AllDigits, Ordinary, NoEscapedDigit;
    var last := (if lazy then "?" else "") + after;
    Associate(PrintOperator(op), if lazy then "?" else "", after);
    ScanPrinted(atom, p, i, PrintOperator(op) + last, outer, g, previous);
    Suffix(p, i, Print(atom), PrintOperator(op) + last);
    var j, h := i + |Print(atom)|, Join(g, Seen(atom));
    Suffix(p, j, PrintOperator(op), last);
    LastOfAtom(atom, PrintOperator(op) + last);
    ScanQuantifier(atom, op, lazy, p, j, after, outer, h, PreviousAfter(atom, previous));
  }

  /** Reading an operator and the optional `?` after it. */
  lemma ScanQuantifier(
    atom: Regex, op: Operator, lazy: bool, p: string, j: nat, after: string,
    outer: seq<GroupInfo>, g: GroupInfo, previous: Previous)
    requires 0 < j <= |p| && p[j..] == PrintOperator(op) + ((if lazy then "?" else "") + after)
    requires op.Counted? ==> op.low != "" && AllDigits(op.low) && (op.upper.AtMost? ==> AllDigits(op.upper.high))
    requires p[j - 1] == '(' <==> atom == Escape('(')
    requires atom == Escape('(') ==> previous == NoGroup
    ensures
      var k := j + |PrintOperator(op)| + (if lazy then 1 else 0);
      var seen := !(atom == Escape('(') && op.Optional? && !lazy);
      && k <= |p|
      && Accepts(p, j, At(outer, g, previous)) ==
         (!(previous.Closed? && (previous.group.quantified || previous.group.alternation)) &&
          Accepts(p, k, At(outer, if seen then g.(quantified := true) else g, NoGroup)))
  {
    hide Accepts;
    var last := (if lazy then "?" else "") + after;
    if atom == Escape('(') && op.Optional? {
      ScanMisread(lazy, p, j, last, outer, g);
    } else {
      Suffix(p, j, PrintOperator(op), last);
      ScanOperator(op, p, j, last, outer, g, previous);
      ScanLazy(lazy, p, j + |PrintOperator(op)|, after, outer, g.(quantified := true));
    }
  }

  lemma ScanMisread(lazy: bool, p: string, i: nat, rest: string, outer: seq<GroupInfo>, g: GroupInfo)
    requires 0 < i <= |p| && p[i..] == "?" + rest && p[i - 1] == '('
    requires lazy ==> rest != "" && rest[0] == '?'
    ensures i + (if lazy then 2 else 1) <= |p|
    ensures
      Accepts(p, i, At(outer, g, NoGroup)) ==
      if lazy
      then Accepts(p, i + 2, At(outer, g.(quantified := true), NoGroup))
      else Accepts(p, i + 1, At(outer, g, NoGroup))
  {
    Suffix(p, i, "?", rest);
    Stack(outer, g, g.(quantified := true));
    assert Step(p, i, At(outer, g, NoGroup)) == Go(i + 1, At(outer, g, NoGroup));
    if lazy {
      assert p[i + 1] == p[i + 1..][0];
      assert Step(p, i + 1, At(outer, g, NoGroup)) == Go(i + 2, At(outer, g.(quantified := true), NoGroup));
    }
  }

  lemma LastOfAtom(atom: Regex, after: string)
    requires (atom.Char? || atom.Escape? || atom.Class? || atom.Group?) && WellFormed(atom, after)
    ensures Print(atom) != ""
    ensures Print(atom)[|Print(atom)| - 1] == '(' <==> atom == Escape('(')
  {
  }

  // ---- what the scanner decides ---------------------------------------------------------------------------

  /** On every printed expression the scanner decides the structural property, as it sees quantifiers. */
  lemma ScannerDecides(t: Regex)
    requires WellFormed(t, "")
    ensures Accepts(Print(t), 0, START) == Conservative(t, true)
  {
    hide Accepts, Conservative, Print, WellFormed, PreviousAfter, HasQuantifier, HasAlternation;
    assert Print(t)[0..] == Print(t) + "";
    assert START == At([], FRESH, NoGroup) by { assert [] + [FRESH] == [FRESH]; }
    AcceptsAtEnd(Print(t), At([], Join(FRESH, Seen(t)), PreviousAfter(t, NoGroup)));
    ScanPrinted(t, Print(t), 0, "", [], FRESH, NoGroup);
  }

  lemma {:induction false} BlindSeesLess(t: Regex)
    ensures HasQuantifier(t, true) ==> HasQuantifier(t, false)
    decreases t
  {
    match t
    case Empty | Char(_) | Escape(_) | Class(_) =>
    case Group(_, body) => BlindSeesLess(body);
    case Cat(left, right) => BlindSeesLess(left); BlindSeesLess(right);
    case Alt(left, right) => BlindSeesLess(left); BlindSeesLess(right);
    case Repeat(atom, _, _) => BlindSeesLess(atom);
  }

  lemma {:induction false} ConservativeSplit(t: Regex)
    ensures Conservative(t, false) <==> Conservative(t, true) && !HidesDanger(t)
    decreases t
  {
    match t
    case Empty | Char(_) | Escape(_) | Class(_) =>
    case Group(_, body) => ConservativeSplit(body);
    case Cat(left, right) => ConservativeSplit(left); ConservativeSplit(right);
    case Alt(left, right) => ConservativeSplit(left); ConservativeSplit(right);
    case Repeat(atom, _, _) =>
      ConservativeSplit(atom);
      if atom.Group? { BlindSeesLess(atom.body); }
  }

  /** No escaped parenthesis carries a greedy `?`: in the text, no `\(?` that is a parenthesis and its operator. */
  predicate NoMisread(t: Regex) {
    match t
    case Empty | Char(_) | Escape(_) | Class(_) => true
    case Group(_, body) => NoMisread(body)
    case Cat(left, right) => NoMisread(left) && NoMisread(right)
    case Alt(left, right) => NoMisread(left) && NoMisread(right)
    case Repeat(atom, _, _) => !Misread(t) && NoMisread(atom)
  }

  /** `u` is `t`, or a part of it. */
  predicate PartOf(u: Regex, t: Regex) {
    u == t ||
    match t
    case Empty | Char(_) | Escape(_) | Class(_) => false
    case Group(_, body) => PartOf(u, body)
    case Cat(left, right) => PartOf(u, left) || PartOf(u, right)
    case Alt(left, right) => PartOf(u, left) || PartOf(u, right)
    case Repeat(atom, _, _) => PartOf(u, atom)
  }

  /** That is: no part of the expression is misread. */
  lemma {:induction false} NoMisreadIff(t: Regex)
    ensures NoMisread(t) <==> forall u :: PartOf(u, t) ==> !Misread(u)
    decreases t
  {
    assert PartOf(t, t);
    match t
    case Empty | Char(_) | Escape(_) | Class(_) =>
    case Group(_, body) =>
      NoMisreadIff(body);
      assert forall u :: PartOf(u, body) ==> PartOf(u, t);
    case Cat(left, right) =>
      NoMisreadIff(left);
      NoMisreadIff(right);
      assert forall u :: PartOf(u, left) || PartOf(u, right) ==> PartOf(u, t);
    case Alt(left, right) =>
      NoMisreadIff(left);
      NoMisreadIff(right);
      assert forall u :: PartOf(u, left) || PartOf(u, right) ==> PartOf(u, t);
    case Repeat(atom, _, _) =>
      NoMisreadIff(atom);
      assert forall u :: PartOf(u, atom) ==> PartOf(u, t);
  }

  lemma {:induction false} NothingMissed(t: Regex)
    requires NoMisread(t)
    ensures HasQuantifier(t, true) == HasQuantifier(t, false)
    decreases t
  {
    match t
    case Empty | Char(_) | Escape(_) | Class(_) =>
    case Group(_, body) => NothingMissed(body);
    case Cat(left, right) => NothingMissed(left); NothingMissed(right);
    case Alt(left, right) => NothingMissed(left); NothingMissed(right);
    case Repeat(atom, _, _) => NothingMissed(atom);
  }

  lemma {:induction false} NothingHidden(t: Regex)
    requires NoMisread(t)
    ensures !HidesDanger(t)
    decreases t
  {
    match t
    case Empty | Char(_) | Escape(_) | Class(_) =>
    case Group(_, body) => NothingHidden(body);
    case Cat(left, right) => NothingHidden(left); NothingHidden(right);
    case Alt(left, right) => NothingHidden(left); NothingHidden(right);
    case Repeat(atom, _, _) =>
      NothingHidden(atom);
      if atom.Group? { NothingMissed(atom.body); }
  }

  /** The scanner decides the property on every expression without an optional escaped parenthesis. */
  lemma ScannerIsRight(t: Regex)
    requires WellFormed(t, "") && NoMisread(t)
    ensures Accepts(Print(t), 0, START) <==> Conservative(t, false)
  {
    hide Conservative, WellFormed, Accepts;
    ScannerDecides(t);
    ConservativeSplit(t);
    NothingHidden(t);
  }

  /** Some quantified group of `t` is dangerous even to the scanner, or some escape is a digit. */
  predicate Flawed(t: Regex) {
    match t
    case Empty | Char(_) => false
    case Escape(c) => '1' <= c <= '9'
    case Class(items) => !NoEscapedDigit(items)
    case Group(_, body) => Flawed(body)
    case Cat(left, right) => Flawed(left) || Flawed(right)
    case Alt(left, right) => Flawed(left) || Flawed(right)
    case Repeat(atom, _, _) =>
      Flawed(atom) || (atom.Group? && (HasQuantifier(atom.body, true) || HasAlternation(atom.body)))
  }

  lemma {:induction false} FlawedIffSeen(t: Regex)
    ensures Flawed(t) <==> !Conservative(t, true)
    decreases t
  {
    match t
    case Empty | Char(_) | Escape(_) | Class(_) =>
    case Group(_, body) => FlawedIffSeen(body);
    case Cat(left, right) => FlawedIffSeen(left); FlawedIffSeen(right);
    case Alt(left, right) => FlawedIffSeen(left); FlawedIffSeen(right);
    case Repeat(atom, _, _) => FlawedIffSeen(atom);
  }

  /**
   * On every expression: the scanner refuses no conservative one. Where nothing is hidden it is right; where
   * something is, it is right exactly when another flaw, which it does see, makes it refuse.
   */
  lemma ScannerAgainstProperty(t: Regex)
    requires WellFormed(t, "")
    ensures Conservative(t, false) ==> Accepts(Print(t), 0, START)
    ensures !HidesDanger(t) ==> (Accepts(Print(t), 0, START) <==> Conservative(t, false))
    ensures HidesDanger(t) ==> !Conservative(t, false) && (Accepts(Print(t), 0, START) <==> !Flawed(t))
  {
    hide Conservative, WellFormed, Accepts, HidesDanger, Flawed;
    ScannerDecides(t);
    ConservativeSplit(t);
    FlawedIffSeen(t);
  }

  /** `(\(?)*` repeats an optional parenthesis, and is accepted. */
  lemma MisreadQuantifierAccepted()
    ensures
      var t := Repeat(Group("", Repeat(Escape('('), Optional, false)), Star, false);
      Print(t) == "(\\(?)*" && WellFormed(t, "") && !Conservative(t, false) && Accepts(Print(t), 0, START)
  {
    var inner := Repeat(Escape('('), Optional, false);
    var t := Repeat(Group("", inner), Star, false);
    assert Print(inner) == "\\(?" && WellFormed(inner, ")*");
    assert PrintOperator(Star) + "" + "" == "*" && ")" + "*" == ")*";
    ScannerDecides(t);
  }
}

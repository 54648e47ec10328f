/** The agent editor's round trip (apps/server/src/agent-definitions.ts). */
module AgentDefinitions {
  import opened Options
  import opened Splitting
  import opened Text
  import opened Decimals
  import opened AgentText

  datatype Field = Field(key: string, value: string)
  datatype Mode = Ask | Edit

  /** What the editor reads and writes; `tools` None means every tool. */
  datatype Draft = Draft(
    name: string, description: string, tools: Option<seq<string>>, mode: Mode, model: string,
    maxTurns: Option<nat>, body: string, extra: seq<Field>)

  const FORM_KEYS := ["name", "description", "tools", "mode", "model", "max-turns"]
  const MAX_EXTRAS: nat := 100
  const MAX_EXTRA_VALUE_CHARS: nat := 16_000
  const MAX_KEY_CHARS: nat := 64

  // ---- rendering single keys ------------------------------------------------------------------------------

  function LowerChar(c: char): char {
    if 'A' <= c <= 'Z' then (c as int + 32) as char else c
  }

  /** `toLowerCase()` on a frontmatter key, which is ASCII. */
  function Lower(s: string): string {
    if s == "" then "" else [LowerChar(s[0])] + Lower(s[1..])
  }

  /** Lower case, by code point: capital letters move up by 32, and everything else stays. */
  lemma {:induction false} LowerIs(s: string, k: nat)
    requires k < |s|
    ensures |Lower(s)| == |s|
    ensures Lower(s)[k] as int == if 65 <= s[k] as int <= 90 then s[k] as int + 32 else s[k] as int
    decreases s
  {
    if |s| > 1 { LowerIs(s[1..], if k > 0 then k - 1 else 0); }
  }

  function HexDigit(n: nat): char
    requires n < 16
  {
    "0123456789abcdef"[n]
  }

  /** One character of `JSON.stringify`: quotes, backslashes and control characters are escaped. */
  function JsonChar(c: char): string {
    if c == '\"' then "\\\""
    else if c == '\\' then "\\\\"
    else if c == '\n' then "\\n"
    else if c == '\r' then "\\r"
    else if c == '\t' then "\\t"
    else if c == '\U{8}' then "\\b"
    else if c == '\U{c}' then "\\f"
    else if c < ' ' then "\\u00" + [HexDigit(c as int / 16), HexDigit(c as int % 16)]
    else [c]
  }

  /** Printable characters but the quote and the backslash stand for themselves in JSON; others are escaped. */
  lemma JsonCharsAre(c: char)
    ensures (' ' <= c && c != '\"' && c != '\\') <==> JsonChar(c) == [c]
    ensures !(' ' <= c && c != '\"' && c != '\\') ==> |JsonChar(c)| > 1 && JsonChar(c)[0] == '\\'
  {
  }

  function JsonChars(s: string): string {
    if s == "" then "" else JsonChar(s[0]) + JsonChars(s[1..])
  }

  function JsonString(s: string): string {
    "\"" + JsonChars(s) + "\""
  }

  /** The text after `key: ` of a form key; None when the draft leaves the key out. */
  function FormValue(key: string, d: Draft): Option<string>
    requires key in FORM_KEYS
  {
    if key == "name" then if d.name == "" then None else Some(JsonString(d.name))
    else if key == "description" then if d.description == "" then None else Some(JsonString(d.description))
    else if key == "tools" then
      if d.tools.None? then None else Some(JsonString(JoinWith(d.tools.value, ", ")))
    else if key == "mode" then Some(JsonString(if d.mode.Ask? then "ask" else "edit"))
    else if key == "model" then if d.model == "" then None else Some(JsonString(d.model))
    else if d.maxTurns.None? then None else Some(Digits(d.maxTurns.value))
  }

  function RenderFormKey(key: string, d: Draft): seq<string>
    requires key in FORM_KEYS
  {
    match FormValue(key, d)
    case None => []
    case Some(text) => [key + ": " + text]
  }

  function RenderExtra(f: Field): seq<string> {
    var lines := Split(f.value);
    [if lines[0] == "" then f.key + ":" else f.key + ": " + lines[0]] + lines[1..]
  }

  /** The raw value of an entry: the inline part and its continuation lines. */
  function EntryValueText(e: Entry): string {
    var first := if e.lines == [] then "" else e.lines[0];
    var inline := if |e.key| < |first| then first[|e.key| + 1..] else "";
    Join([if StartsWith(inline, " ") then inline[1..] else inline] + (if e.lines == [] then [] else e.lines[1..]))
  }

  // ---- accepted drafts ------------------------------------------------------------------------------------

  /** A continuation line that cannot be read as another entry or as the closing fence. */
  predicate ContinuationOk(line: string) {
    && (IsBlank(line) || IsSpace(line[0]) || line[0] == '#' || line[0] == '-')
    && !StartsWith(line, "---")
  }

  /**
   * Continuation lines that are accepted: blank ones, list items, comments and indented ones; but not a line of dashes.
   * A line that begins in any other way is refused.
   */
  lemma ContinuationsAccepted(s: string)
    ensures ContinuationOk("") && ContinuationOk("- " + s) && ContinuationOk("#" + s)
    ensures ContinuationOk(" " + s) && ContinuationOk("\t" + s) && ContinuationOk("-" ) && !ContinuationOk("---" + s)
    ensures s != "" && !IsSpace(s[0]) && s[0] != '#' && s[0] != '-' ==> !ContinuationOk(s)
  {
    if s != "" && !IsSpace(s[0]) { assert s[0] in s; }
    assert "- " + s != "" && ("- " + s)[1] == ' ';
    assert ("---" + s)[..3] == "---";
  }

  predicate FieldOk(f: Field) {
    && IsKey(f.key) && |f.key| <= MAX_KEY_CHARS
    && Lower(f.key) !in FORM_KEYS
    && |f.value| <= MAX_EXTRA_VALUE_CHARS && '\r' !in f.value
    && forall line <- Split(f.value)[1..] :: ContinuationOk(line)
  }

  /** The extra fields parseAgentDraft accepts. */
  predicate ExtrasOk(extra: seq<Field>) {
    && |extra| <= MAX_EXTRAS
    && (forall f <- extra :: FieldOk(f))
    && forall i, j :: 0 <= i < j < |extra| ==> Lower(extra[i].key) != Lower(extra[j].key)
  }

  predicate ToolNameOk(name: string) {
    name != "" && forall c <- name :: IsKeyChar(c) || c == '.' || c == ':' || c == '*'
  }

  /** `/^[A-Za-z0-9_.:*-]+$/`, by code point. */
  lemma ToolNamesAre(name: string)
    ensures ToolNameOk(name) <==>
      name != "" && forall c <- name :: IsKeyChar(c) || c as int == 46 || c as int == 58 || c as int == 42
  {
  }

  /** What of the checks on a draft matters for its file; a name or a model of several lines would do no harm. */
  predicate Accepted(d: Draft) {
    && ExtrasOk(d.extra) && Trimmed(d.body)
    && (d.tools.Some? ==> forall name <- d.tools.value :: ToolNameOk(name))
  }

  predicate NoSeparator(s: string) {
    forall c <- s :: c != '\U{2028}' && c != '\U{2029}'
  }

  /** No text that shares a line with its key holds a Unicode line or paragraph separator. */
  predicate Writable(d: Draft) {
    && NoSeparator(d.name) && NoSeparator(d.description) && NoSeparator(d.model)
    && forall f <- d.extra :: NoSeparator(Split(f.value)[0])
  }

  /** The checks parseAgentDraft makes on the extra fields, in its own order. */
  method CheckExtras(extra: seq<Field>) returns (ok: bool)
    ensures ok == ExtrasOk(extra)
  {
    if |extra| > MAX_EXTRAS { return false; }
    var seen: set<string> := {};
    for i := 0 to |extra|
      invariant seen == set k | 0 <= k < i :: Lower(extra[k].key)
      invariant forall k :: 0 <= k < i ==> FieldOk(extra[k])
      invariant forall j, k :: 0 <= j < k < i ==> Lower(extra[j].key) != Lower(extra[k].key)
    {
      var f := extra[i];
      assert f in extra;
      if !IsKey(f.key) || |f.key| > MAX_KEY_CHARS { return false; }
      var folded := Lower(f.key);
      if folded in FORM_KEYS || folded in seen { return false; }
      seen := seen + {folded};
      if |f.value| > MAX_EXTRA_VALUE_CHARS || '\r' in f.value { return false; }
      var lines := Split(f.value)[1..];
      for k := 0 to |lines|
        invariant forall m :: 0 <= m < k ==> ContinuationOk(lines[m])
      {
        assert lines[k] in lines;
        if (!IsBlank(lines[k]) && !(IsSpace(lines[k][0]) || lines[k][0] == '#' || lines[k][0] == '-')) ||
          StartsWith(lines[k], "---") { return false; }
      }
    }
    return true;
  }

  // ---- rendering over an existing file --------------------------------------------------------------------

  function FindExtra(extra: seq<Field>, folded: string): (r: Option<Field>)
    ensures r.Some? ==> r.value in extra && Lower(r.value.key) == folded
    ensures r.None? ==> forall f <- extra :: Lower(f.key) != folded
  {
    if extra == [] then None
    else if Lower(extra[0].key) == folded then Some(extra[0])
    else FindExtra(extra[1..], folded)
  }

  function FormEntries(key: string, d: Draft): seq<Entry>
    requires key in FORM_KEYS
  {
    if RenderFormKey(key, d) == [] then [] else [Entry(key, RenderFormKey(key, d))]
  }

  /** An extra over the entry it edits: an unedited entry keeps its exact lines. */
  function ExtraEntry(f: Field, e: Entry): Entry {
    if f.value == EntryValueText(e) && f.key == e.key then e else Entry(f.key, RenderExtra(f))
  }

  datatype Pass = Pass(entries: seq<Entry>, written: set<string>)

  /** The existing entries, as the draft leaves them. */
  function Over(d: Draft, es: seq<Entry>, written: set<string>): Pass {
    if es == [] then Pass([], written)
    else
      var folded := Lower(es[0].key);
      if folded in written then Over(d, es[1..], written)
      else if folded in FORM_KEYS then
        var rest := Over(d, es[1..], written + {folded});
        Pass(FormEntries(folded, d) + rest.entries, rest.written)
      else match FindExtra(d.extra, folded)
        case None => Over(d, es[1..], written)
        case Some(f) =>
          var rest := Over(d, es[1..], written + {folded});
          Pass([ExtraEntry(f, es[0])] + rest.entries, rest.written)
  }

  function MissingForm(d: Draft, keys: seq<string>, written: set<string>): seq<Entry>
    requires forall key <- keys :: key in FORM_KEYS
  {
    if keys == [] then []
    else (if keys[0] in written then [] else FormEntries(keys[0], d)) + MissingForm(d, keys[1..], written)
  }

  function NewExtras(extra: seq<Field>, written: set<string>): seq<Entry> {
    if extra == [] then []
    else
      (if Lower(extra[0].key) in written then [] else [Entry(extra[0].key, RenderExtra(extra[0]))]) +
      NewExtras(extra[1..], written)
  }

  /** The entries of the rendered file. */
  function Rendered(d: Draft, es: seq<Entry>): seq<Entry> {
    var kept := Over(d, es, {});
    kept.entries + MissingForm(d, FORM_KEYS, kept.written) + NewExtras(d.extra, kept.written)
  }


  // ---- single entries read back ---------------------------------------------------------------------------

  lemma {:induction false} KeyEndIs(key: string, rest: string)
    requires forall c <- key :: IsKeyChar(c)
    ensures KeyEnd(key + ":" + rest) == |key|
    decreases key
  {
    var line := key + ":" + rest;
    if key != "" {
      assert key[0] in key;
      assert line[1..] == key[1..] + ":" + rest;
      assert forall c <- key[1..] :: c in key;
      KeyEndIs(key[1..], rest);
    }
  }

  lemma KeyLine(key: string, rest: string)
    requires IsKey(key) && OneLine(rest)
    ensures KeyOf(key + ":" + rest) == Some(key)
  {
    hide KeyEnd, OneLine;
    KeyEndIs(key, rest);
    var line := key + ":" + rest;
    assert line[|key| + 1..] == rest && line[..|key|] == key;
  }

  lemma JoinSplit(s: string)
    ensures Join(Split(s)) == s
  {
    SplitIsExact(s, '\n');
  }

  /** Lines hold characters of the text only, and no newline. */
  lemma {:induction false} SplitChars(s: string, k: nat)
    requires k < |Split(s)|
    ensures forall c <- Split(s)[k] :: c in s && c != '\n'
    decreases s
  {
    if s != "" {
      if s[0] == '\n' {
        if k > 0 { SplitChars(s[1..], k - 1); }
      } else {
        SplitChars(s[1..], k);
      }
      assert forall c <- s[1..] :: c in s;
      assert s[0] in s;
    }
  }

  lemma ContinuationHasNoKey(line: string)
    requires ContinuationOk(line)
    ensures KeyOf(line).None?
  {
    if line != "" && IsBlank(line) {
      assert line[0] in line;
    }
  }

  /** The lines of an accepted value: clean, and none but the first could be read as a key or a fence. */
  lemma ValueLine(f: Field, k: nat)
    requires FieldOk(f) && k < |Split(f.value)|
    ensures
      var line := Split(f.value)[k];
      && Clean(line) && (forall c <- line :: c != '\n' && c != '\r')
      && (k > 0 ==> KeyOf(line).None? && !StartsWith(line, "---"))
  {
    hide KeyOf, StartsWith, IsKey, Lower;
    var lines := Split(f.value);
    SplitChars(f.value, k);
    if lines[k] != "" { assert lines[k][|lines[k]| - 1] in lines[k]; }
    if k > 0 {
      assert lines[1..][k - 1] in lines[1..];
      ContinuationHasNoKey(lines[k]);
    }
  }

  /** An accepted extra is one entry, whose value text is the field's value. */
  lemma ExtraReadsBack(f: Field)
    requires FieldOk(f) && NoSeparator(Split(f.value)[0])
    ensures
      var e := Entry(f.key, RenderExtra(f));
      Framed(e) && EntryValueText(e) == f.value
  {
    hide KeyOf, Join, Clean, StartsWith, NoSeparator, IsKey, Split, Lower;
    var lines := Split(f.value);
    var e := Entry(f.key, RenderExtra(f));
    ValueLine(f, 0);
    FirstLineReadsBack(f.key, lines[0]);
    forall k | 1 <= k < |e.lines|
      ensures KeyOf(e.lines[k]).None? && !StartsWith(e.lines[k], "---") && Clean(e.lines[k])
    {
      ValueLine(f, k);
    }
    KeyIsShorter(e.lines[0], f.key);
    JoinSplit(f.value);
    assert [lines[0]] + lines[1..] == lines;
    assert e.lines[1..] == lines[1..];
  }

  lemma KeyIsShorter(line: string, key: string)
    requires KeyOf(line) == Some(key)
    ensures |key| < |line|
  {
  }

  lemma FirstLineReadsBack(key: string, first: string)
    requires IsKey(key) && NoSeparator(first) && forall c <- first :: c != '\n' && c != '\r'
    ensures
      var line := if first == "" then key + ":" else key + ": " + first;
      var inline := line[|key| + 1..];
      KeyOf(line) == Some(key) && Clean(line) && first == (if StartsWith(inline, " ") then inline[1..] else inline)
  {
    hide KeyOf, IsKeyChar;
    if first == "" {
      KeyLine(key, "");
      assert key + ":" + "" == key + ":";
      LineIsClean(key, "");
    } else {
      KeyLine(key, " " + first);
      assert key + ":" + (" " + first) == key + ": " + first;
      assert (key + ": " + first)[|key| + 1..] == " " + first && (" " + first)[1..] == first;
      LineIsClean(key, " " + first);
    }
  }

  lemma LineIsClean(key: string, rest: string)
    requires IsKey(key) && OneLine(rest)
    ensures Clean(key + ":" + rest)
  {
    var line := key + ":" + rest;
    forall c | c in line ensures c != '\n' && c != '\r' {}
    assert line[|line| - 1] in line;
  }

  // ---- form keys ------------------------------------------------------------------------------------------

  lemma {:induction false} LowerOfLower(s: string)
    requires forall c <- s :: !('A' <= c <= 'Z')
    ensures Lower(s) == s
    decreases s
  {
    if s != "" {
      assert s[0] in s;
      assert forall c <- s[1..] :: c in s;
      LowerOfLower(s[1..]);
    }
  }

  predicate SmallLetters(key: string) {
    key != "" && 'a' <= key[0] <= 'z' && forall i :: 0 <= i < |key| ==> 'a' <= key[i] <= 'z' || key[i] == '-'
  }

  lemma SmallLettersAreKey(key: string)
    requires SmallLetters(key)
    ensures IsKey(key) && Lower(key) == key
  {
    LowerOfLower(key);
  }

  lemma FormKeyIsKey(key: string)
    requires key in FORM_KEYS
    ensures IsKey(key) && Lower(key) == key
  {
    hide Lower, IsKey;
    assert SmallLetters("name") && SmallLetters("description") && SmallLetters("tools");
    assert SmallLetters("mode") && SmallLetters("model") && SmallLetters("max-turns");
    SmallLettersAreKey(key);
  }

  lemma {:induction false} JsonIsOneLine(s: string)
    requires NoSeparator(s)
    ensures OneLine(JsonChars(s))
    decreases s
  {
    if s != "" {
      assert s[0] in s;
      assert forall c <- s[1..] :: c in s;
      JsonIsOneLine(s[1..]);
      JsonCharIsOneLine(s[0]);
    }
  }

  lemma JsonCharIsOneLine(c: char)
    requires c != '\U{2028}' && c != '\U{2029}'
    ensures OneLine(JsonChar(c))
  {
  }

  lemma {:induction false} ToolsAreOneLine(names: seq<string>)
    requires forall name <- names :: ToolNameOk(name)
    ensures NoSeparator(JoinWith(names, ", "))
    decreases names
  {
    if |names| > 0 {
      assert ToolNameOk(names[0]);
      ToolsAreOneLine(names[1..]);
    }
  }

  lemma JsonStringIsOneLine(s: string)
    requires NoSeparator(s)
    ensures OneLine(JsonString(s))
  {
    JsonIsOneLine(s);
  }

  lemma FormValueIsOneLine(key: string, d: Draft)
    requires key in FORM_KEYS && Accepted(d) && Writable(d)
    ensures FormValue(key, d).Some? ==> OneLine(FormValue(key, d).value)
  {
    hide JsonString, JoinWith, OneLine, NoSeparator, Digits;
    JsonStringIsOneLine(d.name);
    JsonStringIsOneLine(d.description);
    JsonStringIsOneLine(d.model);
    ModeIsOneLine(d.mode);
    if d.tools.Some? {
      ToolsAreOneLine(d.tools.value);
      JsonStringIsOneLine(JoinWith(d.tools.value, ", "));
    }
    if d.maxTurns.Some? {
      DecimalIsOneLine(d.maxTurns.value);
    }
  }

  lemma ModeIsOneLine(m: Mode)
    ensures OneLine(JsonString(if m.Ask? then "ask" else "edit"))
  {
    JsonStringIsOneLine("ask");
    JsonStringIsOneLine("edit");
  }

  lemma DecimalIsOneLine(n: nat)
    ensures OneLine(Digits(n))
  {
    hide Digits;
  }

  /** A form key is written as one entry on one line. */
  lemma FormReadsBack(key: string, d: Draft)
    requires key in FORM_KEYS && Accepted(d) && Writable(d)
    ensures forall e <- FormEntries(key, d) :: Framed(e) && e.key == key
    ensures |FormEntries(key, d)| <= 1
  {
    hide FormValue, IsKey, OneLine, Framed, Accepted, Writable;
    FormKeyIsKey(key);
    FormValueIsOneLine(key, d);
    if FormValue(key, d).Some? {
      FormLineReadsBack(key, FormValue(key, d).value);
    }
  }

  lemma FormLineReadsBack(key: string, text: string)
    requires IsKey(key) && OneLine(text)
    ensures Framed(Entry(key, [key + ": " + text]))
  {
    hide KeyOf;
    KeyLine(key, " " + text);
    LineIsClean(key, " " + text);
    assert key + ":" + (" " + text) == key + ": " + text;
  }

  // ---- the entries of the rendered file -------------------------------------------------------------------

  /** An entry that says what the draft says about its key. */
  predicate Faithful(d: Draft, e: Entry) {
    var folded := Lower(e.key);
    if folded in FORM_KEYS then FormEntries(folded, d) == [e]
    else
      var f := FindExtra(d.extra, folded);
      f.Some? && e.key == f.value.key && EntryValueText(e) == f.value.value
  }

  ghost predicate DistinctKeys(es: seq<Entry>) {
    forall i, j :: 0 <= i < j < |es| ==> Lower(es[i].key) != Lower(es[j].key)
  }

  /** The draft has something to write under this folded key, and `es` has it. */
  ghost predicate Covers(d: Draft, es: seq<Entry>, folded: string) {
    if folded in FORM_KEYS then forall e <- FormEntries(folded, d) :: e in es
    else exists e <- es :: Lower(e.key) == folded
  }

  /** Entries that say, once each, what the draft says about exactly the keys between `before` and `after`. */
  ghost predicate Says(d: Draft, es: seq<Entry>, before: set<string>, after: set<string>) {
    && before <= after
    && (forall e <- es :: Framed(e) && Faithful(d, e) && Lower(e.key) in after && Lower(e.key) !in before)
    && DistinctKeys(es)
    && (forall folded <- after :: folded !in before ==> Covers(d, es, folded))
  }

  lemma SaysNothing(d: Draft, written: set<string>)
    ensures Says(d, [], written, written)
  {
  }

  lemma SaysThen(d: Draft, a: seq<Entry>, b: seq<Entry>, before: set<string>, middle: set<string>, after: set<string>)
    requires Says(d, a, before, middle) && Says(d, b, middle, after)
    ensures Says(d, a + b, before, after)
  {
    hide Framed, Faithful, FormEntries, Lower;
    forall folded | folded in after && folded !in before ensures Covers(d, a + b, folded) {
      if folded in FORM_KEYS {
        if folded in middle { assert Covers(d, a, folded); } else { assert Covers(d, b, folded); }
      } else if folded in middle {
        assert Covers(d, a, folded);
        var e :| e in a && Lower(e.key) == folded;
        assert e in a + b;
      } else {
        assert Covers(d, b, folded);
        var e :| e in b && Lower(e.key) == folded;
        assert e in a + b;
      }
    }
    forall i, j | 0 <= i < j < |a + b| ensures Lower((a + b)[i].key) != Lower((a + b)[j].key) {
      if i < |a| <= j {
        assert a[i] in a && b[j - |a|] in b;
      } else if |a| <= i {
        assert Lower(b[i - |a|].key) != Lower(b[j - |a|].key);
      }
    }
  }

  lemma SaysForm(d: Draft, key: string, written: set<string>)
    requires key in FORM_KEYS && key !in written && Accepted(d) && Writable(d)
    ensures Says(d, FormEntries(key, d), written, written + {key})
  {
    hide Framed, FormEntries, Accepted, Writable, Lower, IsKey, EntryValueText, FindExtra;
    FormReadsBack(key, d);
    FormKeyIsKey(key);
    var es := FormEntries(key, d);
    if es != [] {
      assert es[0] in es && es == [es[0]];
    }
  }

  lemma SaysExtra(d: Draft, e: Entry, written: set<string>)
    requires Framed(e) && Faithful(d, e) && Lower(e.key) !in FORM_KEYS && Lower(e.key) !in written
    ensures Says(d, [e], written, written + {Lower(e.key)})
  {
    hide Framed, Faithful, Lower;
    assert e in [e];
  }

  /** An accepted draft has one field for a folded key. */
  lemma {:induction false} FindExtraIs(extra: seq<Field>, f: Field)
    requires f in extra
    requires forall i, j :: 0 <= i < j < |extra| ==> Lower(extra[i].key) != Lower(extra[j].key)
    ensures FindExtra(extra, Lower(f.key)) == Some(f)
    decreases extra
  {
    if extra[0] != f {
      var k :| 0 < k < |extra| && extra[k] == f;
      assert extra[1..][k - 1] == f;
      FindExtraIs(extra[1..], f);
    }
  }

  lemma ExtraIsFaithful(d: Draft, f: Field)
    requires Accepted(d) && Writable(d) && f in d.extra
    ensures
      var e := Entry(f.key, RenderExtra(f));
      Framed(e) && Faithful(d, e) && Lower(f.key) !in FORM_KEYS
  {
    hide Framed, EntryValueText, RenderExtra, FormEntries, IsKey, Split, NoSeparator;
    ExtraReadsBack(f);
    FindExtraIs(d.extra, f);
  }

  /** What is written over the existing entries. */
  lemma {:induction false} OverSays(d: Draft, es: seq<Entry>, written: set<string>)
    requires Accepted(d) && Writable(d) && forall e <- es :: Loose(e)
    ensures Says(d, Over(d, es, written).entries, written, Over(d, es, written).written)
    decreases es
  {
    hide Framed, Loose, Says, Lower, FormEntries, EntryValueText, RenderExtra, Accepted, Writable, FindExtra;
    if es == [] {
      SaysNothing(d, written);
    } else {
      var folded := Lower(es[0].key);
      assert es[0] in es;
      var more := written + {folded};
      OverSays(d, es[1..], written);
      OverSays(d, es[1..], more);
      if folded in written {
      } else if folded in FORM_KEYS {
        SaysForm(d, folded, written);
        SaysThen(d, FormEntries(folded, d), Over(d, es[1..], more).entries, written, more,
          Over(d, es[1..], more).written);
      } else if FindExtra(d.extra, folded).Some? {
        var f := FindExtra(d.extra, folded).value;
        ExtraEntryIsFaithful(d, f, es[0]);
        SaysExtra(d, ExtraEntry(f, es[0]), written);
        SaysThen(d, [ExtraEntry(f, es[0])], Over(d, es[1..], more).entries, written, more,
          Over(d, es[1..], more).written);
      }
    }
  }

  lemma ExtraEntryIsFaithful(d: Draft, f: Field, e: Entry)
    requires Accepted(d) && Writable(d) && f in d.extra && Lower(f.key) == Lower(e.key)
    requires Loose(e)
    ensures
      var x := ExtraEntry(f, e);
      Framed(x) && Faithful(d, x) && Lower(x.key) == Lower(e.key) && Lower(x.key) !in FORM_KEYS
  {
    hide Framed, Loose, EntryValueText, RenderExtra, FormEntries, Writable, Lower, Split;
    ExtraIsFaithful(d, f);
    FindExtraIs(d.extra, f);
    assert FieldOk(f);
    if '\r' !in EntryValueText(e) { UneditedIsFramed(e); }
  }

  /** An entry whose value holds no carriage return has none at the end of any line. */
  lemma UneditedIsFramed(e: Entry)
    requires Loose(e) && '\r' !in EntryValueText(e)
    ensures Framed(e)
  {
    hide KeyOf, JoinWith;
    var inline := if |e.key| < |e.lines[0]| then e.lines[0][|e.key| + 1..] else "";
    var parts := [if StartsWith(inline, " ") then inline[1..] else inline] + e.lines[1..];
    assert e.lines == [e.lines[0]] + e.lines[1..];
    forall k | 0 <= k < |e.lines| ensures Clean(e.lines[k]) {
      assert e.lines[k] in e.lines;
      if k == 0 {
        KeyLineEnds(e.lines[0]);
      } else {
        assert parts[k] == e.lines[k];
        JoinHolds(parts, k);
      }
    }
  }

  lemma KeyLineEnds(line: string)
    requires KeyOf(line).Some?
    ensures !EndsInCr(line)
  {
    var n := KeyEnd(line);
    if n + 1 < |line| { assert line[n + 1..][|line| - n - 2] in line[n + 1..]; }
  }

  /** A line of a text without carriage returns ends in none. */
  lemma {:induction false} JoinHolds(lines: seq<string>, k: nat)
    requires k < |lines| && '\r' !in Join(lines)
    ensures !EndsInCr(lines[k])
    decreases k
  {
    if |lines| > 1 {
      var rest := JoinWith(lines[1..], "\n");
      assert Join(lines) == lines[0] + ("\n" + rest);
      if k > 0 {
        JoinHolds(lines[1..], k - 1);
      } else if lines[0] != "" {
        assert lines[0][|lines[0]| - 1] in lines[0];
      }
    } else if lines[0] != "" {
      assert lines[0][|lines[0]| - 1] in lines[0];
    }
  }

  lemma {:induction false} MissingFormSays(d: Draft, keys: seq<string>, written: set<string>, before: set<string>)
    requires Accepted(d) && Writable(d) && forall key <- keys :: key in FORM_KEYS
    requires forall i, j :: 0 <= i < j < |keys| ==> keys[i] != keys[j]
    requires forall key <- keys :: key in written <==> key in before
    ensures Says(d, MissingForm(d, keys, written), before, before + KeySet(keys))
    decreases keys
  {
    hide Says, FormEntries, Accepted, Writable, KeySet;
    if keys == [] {
      SaysNothing(d, before);
      KeySetStep(keys, before);
    } else {
      var key := keys[0];
      var more := before + {key};
      KeySetStep(keys, before);
      MissingFormSays(d, keys[1..], written, more);
      var rest := MissingForm(d, keys[1..], written);
      if key in written {
        assert more == before && MissingForm(d, keys, written) == [] + rest == rest;
      } else {
        SaysForm(d, key, before);
        SaysThen(d, FormEntries(key, d), rest, before, more, before + KeySet(keys));
      }
    }
  }

  ghost function KeySet(keys: seq<string>): set<string> {
    set key <- keys
  }

  lemma KeySetStep(keys: seq<string>, before: set<string>)
    ensures keys == [] ==> before + KeySet(keys) == before
    ensures keys != [] ==> before + {keys[0]} + KeySet(keys[1..]) == before + KeySet(keys)
  {
    if keys != [] {
      assert keys == [keys[0]] + keys[1..];
    }
  }

  ghost function FoldedKeys(extra: seq<Field>): set<string> {
    set f <- extra :: Lower(f.key)
  }

  lemma {:induction false} NewExtrasSays(d: Draft, extra: seq<Field>, written: set<string>, before: set<string>)
    requires Accepted(d) && Writable(d) && forall f <- extra :: f in d.extra
    requires forall i, j :: 0 <= i < j < |extra| ==> Lower(extra[i].key) != Lower(extra[j].key)
    requires forall f <- extra :: Lower(f.key) in written <==> Lower(f.key) in before
    ensures Says(d, NewExtras(extra, written), before, before + FoldedKeys(extra))
    decreases extra
  {
    hide Says, Framed, Faithful, RenderExtra, Accepted, Writable, Lower, FoldedKeys;
    if extra == [] {
      SaysNothing(d, before);
      FoldedKeysStep(extra, before);
    } else {
      var f := extra[0];
      var more := before + {Lower(f.key)};
      FoldedKeysStep(extra, before);
      assert forall g <- extra[1..] :: g in extra && Lower(g.key) != Lower(f.key);
      NewExtrasSays(d, extra[1..], written, more);
      var rest := NewExtras(extra[1..], written);
      if Lower(f.key) in written {
        assert more == before && NewExtras(extra, written) == [] + rest == rest;
      } else {
        var e := Entry(f.key, RenderExtra(f));
        ExtraIsFaithful(d, f);
        SaysExtra(d, e, before);
        SaysThen(d, [e], rest, before, more, before + FoldedKeys(extra));
      }
    }
  }

  lemma FoldedKeysStep(extra: seq<Field>, before: set<string>)
    ensures extra == [] ==> before + FoldedKeys(extra) == before
    ensures extra != [] ==> before + {Lower(extra[0].key)} + FoldedKeys(extra[1..]) == before + FoldedKeys(extra)
  {
    hide Lower;
    if extra != [] {
      assert extra == [extra[0]] + extra[1..];
    }
  }

  lemma RenderedSays(d: Draft, es: seq<Entry>)
    requires Accepted(d) && Writable(d) && forall e <- es :: Loose(e)
    ensures Says(d, Rendered(d, es), {}, Over(d, es, {}).written + KeySet(FORM_KEYS) + FoldedKeys(d.extra))
  {
    hide Framed, Loose, Says, Writable, Over, FoldedKeys, KeySet, FieldOk, Lower;
    var kept := Over(d, es, {});
    OverSays(d, es, {});
    MissingFormSays(d, FORM_KEYS, kept.written, kept.written);
    var middle := kept.written + KeySet(FORM_KEYS);
    KeySetIs(FORM_KEYS);
    forall f | f in d.extra ensures Lower(f.key) in kept.written <==> Lower(f.key) in middle {
      FieldKeyIsNotForm(f);
    }
    NewExtrasSays(d, d.extra, kept.written, middle);
    var form, added := MissingForm(d, FORM_KEYS, kept.written), NewExtras(d.extra, kept.written);
    SaysThen(d, kept.entries, form, {}, kept.written, middle);
    SaysThen(d, kept.entries + form, added, {}, middle, middle + FoldedKeys(d.extra));
  }

  lemma KeySetIs(keys: seq<string>)
    ensures forall key :: key in KeySet(keys) <==> key in keys
  {
  }

  lemma FieldKeyIsNotForm(f: Field)
    requires FieldOk(f)
    ensures Lower(f.key) !in FORM_KEYS
  {
  }

  // ---- the round trip -------------------------------------------------------------------------------------

  /** The text rendered for a draft over an existing file; None when that file is not framed. */
  function Render(d: Draft, existing: Option<string>): Option<string> {
    if existing.None? then Some(Frame(Flatten(Rendered(d, [])), d.body))
    else match SplitMarkdown(existing.value)
      case None => None
      case Some(m) => Some(Frame(m.preamble + Flatten(Rendered(d, m.entries)), d.body))
  }

  /** A file the editor may render over: framed; or no file. */
  predicate Editable(existing: Option<string>) {
    existing.Some? ==> SplitMarkdown(existing.value).Some?
  }

  /** The preamble and entries rendering starts from. */
  function Previous(existing: Option<string>): Grouped
    requires Editable(existing)
  {
    if existing.None? then Grouped([], [])
    else
      var m := SplitMarkdown(existing.value).value;
      Grouped(m.preamble, m.entries)
  }

  /** The draft's form keys and extra fields, each exactly once, and nothing else. */
  ghost predicate ReadsBack(d: Draft, es: seq<Entry>) {
    && DistinctKeys(es)
    && (forall key <- FORM_KEYS :: forall e :: e in FormEntries(key, d) <==> e in es && Lower(e.key) == key)
    && (forall f <- d.extra :: exists e <- es :: e.key == f.key && EntryValueText(e) == f.value)
    && (forall e <- es :: Lower(e.key) !in FORM_KEYS ==>
         exists f <- d.extra :: f.key == e.key && f.value == EntryValueText(e))
  }

  lemma PreviousIsLoose(existing: Option<string>)
    requires Editable(existing)
    ensures LoosePreamble(Previous(existing).preamble)
    ensures forall e <- Previous(existing).entries :: Loose(e)
  {
    hide Loose, LoosePreamble;
    if existing.Some? {
      SplitIsLoose(existing.value);
    } else {
      assert LoosePreamble([]) by { EmptyPreamble(); }
    }
  }

  lemma EmptyPreamble()
    ensures LoosePreamble([])
  {
  }

  lemma SaysReadsBack(d: Draft, es: seq<Entry>, after: set<string>)
    requires Says(d, es, {}, after) && (forall key <- FORM_KEYS :: key in after) && FoldedKeys(d.extra) <= after
    requires Accepted(d)
    ensures ReadsBack(d, es)
  {
    hide Framed, FormEntries, EntryValueText, Lower, FieldOk, FindExtra;
    forall key | key in FORM_KEYS ensures forall e :: e in FormEntries(key, d) <==> e in es && Lower(e.key) == key {
      assert Covers(d, es, key);
      forall e | e in es && Lower(e.key) == key ensures e in FormEntries(key, d) { assert Faithful(d, e); }
      forall e | e in FormEntries(key, d) ensures e in es && Lower(e.key) == key { FormEntryKey(key, d, e); }
    }
    forall f | f in d.extra ensures exists e <- es :: e.key == f.key && EntryValueText(e) == f.value {
      FieldKeyIsNotForm(f);
      assert Lower(f.key) in FoldedKeys(d.extra);
      assert Covers(d, es, Lower(f.key));
      var e :| e in es && Lower(e.key) == Lower(f.key);
      assert Faithful(d, e);
      FindExtraIs(d.extra, f);
    }
    forall e | e in es && Lower(e.key) !in FORM_KEYS
      ensures exists f <- d.extra :: f.key == e.key && f.value == EntryValueText(e)
    {
      assert Faithful(d, e);
      FoundIsField(d.extra, Lower(e.key));
    }
  }

  lemma FoundIsField(extra: seq<Field>, folded: string)
    requires FindExtra(extra, folded).Some?
    ensures FindExtra(extra, folded).value in extra
  {
  }

  lemma FormEntryKey(key: string, d: Draft, e: Entry)
    requires key in FORM_KEYS && e in FormEntries(key, d)
    ensures Lower(e.key) == key
  {
    hide FormValue, Lower, IsKey;
    FormKeyIsKey(key);
  }

  /** What splitting the rendered text gives, of any draft that is writable. */
  lemma RenderedSplits(d: Draft, existing: Option<string>)
    requires Accepted(d) && Writable(d) && Editable(existing)
    ensures
      var text := Render(d, existing);
      var entries := Rendered(d, Previous(existing).entries);
      var g := Group(Stripped(Previous(existing).preamble));
      && text == Some(Frame(Previous(existing).preamble + Flatten(entries), d.body))
      && SplitMarkdown(text.value) == Some(Definition(g.preamble, g.entries + entries, d.body))
      && ReadsBack(d, entries)
    ensures
      var preamble := Previous(existing).preamble;
      Stable(preamble) <==> Group(Stripped(preamble)) == Grouped(Stripped(preamble), [])
  {
    hide Framed, Loose, Writable, LoosePreamble, SplitMarkdown, Frame, Rendered, FoldedKeys, ReadsBack, FieldOk,
      Group, Stable;
    PreviousIsLoose(existing);
    var g := Previous(existing);
    var entries := Rendered(d, g.entries);
    RenderedSays(d, g.entries);
    SaysFramed(d, entries, {}, Over(d, g.entries, {}).written + KeySet(FORM_KEYS) + FoldedKeys(d.extra));
    KeySetIs(FORM_KEYS);
    SaysReadsBack(d, entries, Over(d, g.entries, {}).written + KeySet(FORM_KEYS) + FoldedKeys(d.extra));
    ModeIsWritten(d, entries);
    WriteRead(g.preamble, entries, d.body);
    assert [] + Flatten(entries) == Flatten(entries);
  }

  lemma SaysFramed(d: Draft, es: seq<Entry>, before: set<string>, after: set<string>)
    requires Says(d, es, before, after)
    ensures forall e <- es :: Framed(e)
  {
  }

  /** The file's preamble stays a preamble when it is written and read again. */
  predicate StableFile(existing: Option<string>)
    requires Editable(existing)
  {
    Stable(Previous(existing).preamble)
  }

  /**
   * Splitting the rendered text gives back the existing preamble, without carriage returns at the ends of its lines,
   * the draft's body, and entries that hold the draft's form keys and extra fields exactly once.
   */
  lemma RoundTrip(d: Draft, existing: Option<string>)
    requires Accepted(d) && Writable(d) && Editable(existing) && StableFile(existing)
    ensures
      var text := Render(d, existing);
      var entries := Rendered(d, Previous(existing).entries);
      && text.Some?
      && SplitMarkdown(text.value) == Some(Definition(Stripped(Previous(existing).preamble), entries, d.body))
      && ReadsBack(d, entries)
  {
    hide Writable, SplitMarkdown, Frame, Rendered, ReadsBack, Group, Stable, Accepted;
    RenderedSplits(d, existing);
    assert [] + Rendered(d, Previous(existing).entries) == Rendered(d, Previous(existing).entries);
  }

  /** What an entry says under one of the draft's keys, entries that read back say too. */
  lemma SaidBefore(d: Draft, first: Entry, es: seq<Entry>) returns (k: nat)
    requires ReadsBack(d, es)
    requires Lower(first.key) in FORM_KEYS ==> first in FormEntries(Lower(first.key), d)
    requires Lower(first.key) !in FORM_KEYS ==>
      exists f <- d.extra :: f.key == first.key && f.value == EntryValueText(first)
    ensures k < |es| && Lower(es[k].key) == Lower(first.key)
  {
    hide FormEntries, EntryValueText, Lower, FORM_KEYS;
    var e := first;
    if Lower(first.key) !in FORM_KEYS {
      var f :| f in d.extra && f.key == first.key && f.value == EntryValueText(first);
      e :| e in es && e.key == f.key && EntryValueText(e) == f.value;
    }
    k :| 0 <= k < |es| && es[k] == e;
  }

  lemma NotDistinct(es: seq<Entry>, i: nat, j: nat)
    requires i < j < |es| && Lower(es[i].key) == Lower(es[j].key)
    ensures !DistinctKeys(es)
  {
  }

  /** Entries in front of those that say everything already say something twice. */
  lemma TwiceSaid(d: Draft, first: Entry, more: seq<Entry>, es: seq<Entry>)
    requires ReadsBack(d, es)
    ensures !ReadsBack(d, [first] + more + es)
  {
    hide FormEntries, EntryValueText, Lower, FORM_KEYS, DistinctKeys;
    var all := [first] + more + es;
    if ReadsBack(d, all) {
      assert first == all[0] && first in all;
      var k := SaidBefore(d, first, es);
      assert all[1 + |more| + k] == es[k];
      NotDistinct(all, 0, 1 + |more| + k);
    }
  }

  /** The mode is always written, so the rendered file is never empty. */
  lemma ModeIsWritten(d: Draft, es: seq<Entry>)
    requires ReadsBack(d, es)
    ensures es != []
  {
    var e := Entry("mode", RenderFormKey("mode", d));
    assert "mode" in FORM_KEYS;
    assert FormEntries("mode", d) == [e];
    assert e in FormEntries("mode", d);
  }

  // ---- rendering again changes nothing --------------------------------------------------------------------

  lemma DistinctTail(es: seq<Entry>)
    requires es != [] && DistinctKeys(es)
    ensures DistinctKeys(es[1..])
  {
    hide Lower;
    forall i, j | 0 <= i < j < |es[1..]| ensures Lower(es[1..][i].key) != Lower(es[1..][j].key) {
      assert Lower(es[i + 1].key) != Lower(es[j + 1].key);
    }
  }

  /** An entry that already says what the draft says is kept as it is. */
  lemma OverFaithful(d: Draft, e: Entry, rest: seq<Entry>, written: set<string>)
    requires Faithful(d, e) && Lower(e.key) !in written
    ensures
      var pass := Over(d, rest, written + {Lower(e.key)});
      Over(d, [e] + rest, written) == Pass([e] + pass.entries, pass.written)
  {
    hide FormEntries, EntryValueText, Lower, FindExtra, RenderExtra;
    assert ([e] + rest)[1..] == rest;
  }

  lemma {:induction false} OverAgain(d: Draft, es: seq<Entry>, written: set<string>)
    requires forall e <- es :: Faithful(d, e) && Lower(e.key) !in written
    requires DistinctKeys(es)
    ensures Over(d, es, written).entries == es
    ensures forall key :: key in Over(d, es, written).written <==>
      key in written || exists e <- es :: Lower(e.key) == key
    decreases es
  {
    hide Over, Faithful, Lower;
    if es == [] {
      OverNothing(d, written);
    } else {
      var e := es[0];
      assert e in es;
      var more := written + {Lower(e.key)};
      forall x | x in es[1..] ensures Lower(x.key) !in more {
        var k :| 0 < k < |es| && es[k] == x;
        assert Lower(es[0].key) != Lower(es[k].key);
      }
      DistinctTail(es);
      OverAgain(d, es[1..], more);
      OverFaithful(d, e, es[1..], written);
      assert es == [e] + es[1..];
    }
  }

  lemma OverNothing(d: Draft, written: set<string>)
    ensures Over(d, [], written) == Pass([], written)
  {
  }

  lemma {:induction false} NothingMissing(d: Draft, keys: seq<string>, written: set<string>)
    requires forall key <- keys :: key in FORM_KEYS && (key !in written ==> FormEntries(key, d) == [])
    ensures MissingForm(d, keys, written) == []
    decreases keys
  {
    hide FormEntries;
    if keys != [] {
      assert keys[0] in keys;
      NothingMissing(d, keys[1..], written);
    }
  }

  lemma {:induction false} NothingNew(extra: seq<Field>, written: set<string>)
    requires forall f <- extra :: Lower(f.key) in written
    ensures NewExtras(extra, written) == []
    decreases extra
  {
    hide Lower, RenderExtra;
    if extra != [] {
      assert extra[0] in extra;
      NothingNew(extra[1..], written);
    }
  }

  lemma RenderedAgain(d: Draft, es: seq<Entry>, after: set<string>)
    requires Says(d, es, {}, after) && ReadsBack(d, es)
    ensures Rendered(d, es) == es
  {
    hide FormEntries, EntryValueText, Lower, RenderExtra, Framed, Over, Faithful;
    OverAgain(d, es, {});
    var written := Over(d, es, {}).written;
    forall key | key in FORM_KEYS && FormEntries(key, d) != [] ensures key in written {
      var e := FormEntries(key, d)[0];
      assert e in FormEntries(key, d);
      assert e in es && Lower(e.key) == key;
    }
    NothingMissing(d, FORM_KEYS, written);
    forall f | f in d.extra ensures Lower(f.key) in written {
      var e :| e in es && e.key == f.key && EntryValueText(e) == f.value;
    }
    NothingNew(d.extra, written);
  }

  // ---- when the round trip fails --------------------------------------------------------------------------

  lemma {:induction false} GroupedKeys(lines: seq<string>)
    ensures forall e <- Group(lines).entries :: e.lines != [] && KeyOf(e.lines[0]) == Some(e.key)
    decreases lines
  {
    hide KeyOf;
    if lines != [] {
      var before := Group(lines[..|lines| - 1]);
      GroupedKeys(lines[..|lines| - 1]);
      if before.entries != [] { assert before.entries[|before.entries| - 1] in before.entries; }
    }
  }

  lemma JsonCharKeepsSeparators(c: char)
    ensures OneLine(JsonChar(c)) ==> c != '\U{2028}' && c != '\U{2029}'
  {
    if c == '\U{2028}' || c == '\U{2029}' {
      assert c in JsonChar(c);
    }
  }

  lemma {:induction false} JsonKeepsSeparators(s: string)
    ensures OneLine(JsonChars(s)) ==> NoSeparator(s)
    decreases s
  {
    if s != "" {
      JsonKeepsSeparators(s[1..]);
      if OneLine(JsonChars(s)) {
        assert forall c <- JsonChars(s[1..]) :: c in JsonChars(s);
        assert forall c <- JsonChar(s[0]) :: c in JsonChars(s);
        JsonCharKeepsSeparators(s[0]);
        assert s == [s[0]] + s[1..];
      }
    }
  }

  /** A key line shares its line with text that `.` matches. */
  lemma KeyLineRest(key: string, text: string)
    requires IsKey(key) && KeyOf(key + ": " + text).Some?
    ensures OneLine(text)
  {
    var line := key + ":" + (" " + text);
    assert line == key + ": " + text;
    KeyEndIs(key, " " + text);
    assert line[|key| + 1..] == " " + text;
    assert forall c <- text :: c in " " + text;
  }

  lemma FormTextIsWritable(key: string, text: string, d: Draft, es: seq<Entry>)
    requires key in FORM_KEYS && FormValue(key, d) == Some(JsonString(text))
    requires ReadsBack(d, es) && forall e <- es :: e.lines != [] && KeyOf(e.lines[0]) == Some(e.key)
    ensures NoSeparator(text)
  {
    hide KeyOf, OneLine, JsonChars, Lower, EntryValueText;
    var e := Entry(key, RenderFormKey(key, d));
    assert e in FormEntries(key, d);
    assert e in es;
    FormKeyIsKey(key);
    KeyLineRest(key, JsonString(text));
    JsonChunk(text);
    JsonKeepsSeparators(text);
  }

  lemma JsonChunk(s: string)
    requires OneLine(JsonString(s))
    ensures OneLine(JsonChars(s))
  {
    assert forall c <- JsonChars(s) :: c in JsonString(s);
  }

  lemma {:induction false} SplitFirstLine(line: string, rest: seq<string>)
    requires forall c <- line :: c != '\n'
    ensures Split(Join([line] + rest))[0] == line
    decreases line
  {
    var s := Join([line] + rest);
    assert ([line] + rest)[1..] == rest;
    if line == "" {
      if rest != [] { assert s == "\n" + Join(rest); }
    } else {
      assert line[0] in line;
      assert forall c <- line[1..] :: c in line;
      SplitFirstLine(line[1..], rest);
      assert ([line[1..]] + rest)[1..] == rest;
      assert s[1..] == Join([line[1..]] + rest);
      assert [line[0]] + line[1..] == line;
    }
  }

  /** The first line of an entry's value holds no separator. */
  lemma ValueStartsOnOneLine(e: Entry)
    requires e.lines != [] && KeyOf(e.lines[0]) == Some(e.key)
    ensures NoSeparator(Split(EntryValueText(e))[0])
  {
    hide IsKeyChar, Join, Split;
    var inline := e.lines[0][|e.key| + 1..];
    var first := if StartsWith(inline, " ") then inline[1..] else inline;
    assert OneLine(inline);
    assert forall c <- first :: c in inline;
    SplitFirstLine(first, e.lines[1..]);
  }

  /** No file reads back as a draft that is not writable, whatever was rendered. */
  lemma UnwritableIsLost(d: Draft, text: string)
    requires SplitMarkdown(text).Some? && ReadsBack(d, SplitMarkdown(text).value.entries)
    ensures Writable(d)
  {
    hide SplitMarkdown, KeyOf, Lower, JsonChars, Split, EntryValueText, NoSeparator, FormEntries;
    var es := SplitMarkdown(text).value.entries;
    SplitKeys(text);
    EmptyIsWritable();
    if d.name != "" { FormTextIsWritable("name", d.name, d, es); }
    if d.description != "" { FormTextIsWritable("description", d.description, d, es); }
    if d.model != "" { FormTextIsWritable("model", d.model, d, es); }
    forall f | f in d.extra ensures NoSeparator(Split(f.value)[0]) {
      var e :| e in es && e.key == f.key && EntryValueText(e) == f.value;
      ValueStartsOnOneLine(e);
    }
  }

  lemma SplitKeys(text: string)
    requires SplitMarkdown(text).Some?
    ensures forall e <- SplitMarkdown(text).value.entries :: e.lines != [] && KeyOf(e.lines[0]) == Some(e.key)
  {
    hide FindClose, OpenLength, KeyOf, Group;
    GroupedKeys(FrontLines(text));
  }

  lemma EmptyIsWritable()
    ensures NoSeparator("")
  {
  }

  /** The rendered text reads back as the draft. */
  ghost predicate RoundTrips(d: Draft, existing: Option<string>) {
    var text := Render(d, existing);
    && text.Some? && SplitMarkdown(text.value).Some?
    && SplitMarkdown(text.value).value.body == d.body
    && ReadsBack(d, SplitMarkdown(text.value).value.entries)
  }

  /**
   * An accepted draft makes the round trip over a file exactly when it is writable and no preamble line of the file
   * turns into a key.
   */
  lemma RoundTripsExactlyWritable(d: Draft, existing: Option<string>)
    requires Accepted(d) && Editable(existing)
    ensures RoundTrips(d, existing) <==> Writable(d) && StableFile(existing)
  {
    hide SplitMarkdown, ReadsBack, Render, Writable, Accepted, Stable, Group, Rendered, Frame;
    if Writable(d) {
      RenderedSplits(d, existing);
      var g, entries := Group(Stripped(Previous(existing).preamble)), Rendered(d, Previous(existing).entries);
      if StableFile(existing) {
        assert [] + entries == entries;
      } else {
        UnstableHasEntry(Previous(existing).preamble);
        TwiceSaid(d, g.entries[0], g.entries[1..], entries);
        assert g.entries == [g.entries[0]] + g.entries[1..];
      }
    } else if RoundTrips(d, existing) {
      UnwritableIsLost(d, Render(d, existing).value);
    }
  }

  lemma UnstableHasEntry(preamble: seq<string>)
    requires !Stable(preamble)
    ensures Group(Stripped(preamble)).entries != []
  {
    hide KeyOf, StripCr, Group;
    var line :| line in preamble && KeyOf(StripCr(line)).Some?;
    var k :| 0 <= k < |preamble| && preamble[k] == line;
    GroupHasEntry(Stripped(preamble), k);
  }

  // ---- rendering over the rendered text -------------------------------------------------------------------

  /** No preamble line of the file ends in a carriage return. */
  predicate TidyFile(existing: Option<string>)
    requires Editable(existing)
  {
    forall line <- Previous(existing).preamble :: !EndsInCr(line)
  }

  lemma TidyIsStripped(preamble: seq<string>)
    ensures (forall line <- preamble :: !EndsInCr(line)) <==> Stripped(preamble) == preamble
  {
    if Stripped(preamble) == preamble {
      forall line | line in preamble ensures !EndsInCr(line) {
        var k :| 0 <= k < |preamble| && preamble[k] == line;
        assert StripCr(preamble[k]) == preamble[k];
      }
    } else {
      var k :| 0 <= k < |preamble| && Stripped(preamble)[k] != preamble[k];
      assert preamble[k] in preamble;
    }
  }

  lemma TidyIsStable(existing: Option<string>)
    requires Editable(existing) && TidyFile(existing)
    ensures StableFile(existing)
  {
    hide KeyOf;
    PreviousIsLoose(existing);
  }

  function TotalLength(lines: seq<string>): nat {
    if lines == [] then 0 else |lines[0]| + 1 + TotalLength(lines[1..])
  }

  lemma {:induction false} JoinLength(lines: seq<string>)
    requires lines != []
    ensures |Join(lines)| + 1 == TotalLength(lines)
    decreases lines
  {
    if |lines| > 1 {
      JoinLength(lines[1..]);
      assert Join(lines) == lines[0] + "\n" + Join(lines[1..]);
    }
  }

  lemma StripShortens(line: string)
    ensures |StripCr(line)| <= |line| && (|StripCr(line)| == |line| ==> StripCr(line) == line)
  {
  }

  lemma {:induction false} StrippedIsShorter(lines: seq<string>, more: seq<string>)
    ensures TotalLength(Stripped(lines) + more) <= TotalLength(lines + more)
    ensures TotalLength(Stripped(lines) + more) == TotalLength(lines + more) ==> Stripped(lines) == lines
    decreases lines
  {
    hide StripCr;
    if lines != [] {
      StripShortens(lines[0]);
      var rest := lines[1..];
      StrippedIsShorter(rest, more);
      assert Stripped(lines) == [StripCr(lines[0])] + Stripped(rest);
      assert (Stripped(lines) + more)[1..] == Stripped(rest) + more && (lines + more)[1..] == rest + more;
      assert lines == [lines[0]] + rest;
    } else {
      assert Stripped(lines) == lines;
    }
  }

  lemma SameFrameSameLines(preamble: seq<string>, more: seq<string>, body: string)
    requires more != [] && Frame(preamble + more, body) == Frame(Stripped(preamble) + more, body)
    ensures Stripped(preamble) == preamble
  {
    JoinLength(preamble + more);
    JoinLength(Stripped(preamble) + more);
    StrippedIsShorter(preamble, more);
  }

  /**
   * A rendering over a rendering, of a stable file: the preamble has lost its carriage returns, nothing else
   * changes.
   */
  lemma RenderTwice(d: Draft, existing: Option<string>)
    requires Accepted(d) && Writable(d) && Editable(existing) && StableFile(existing)
    ensures
      var preamble, entries := Previous(existing).preamble, Rendered(d, Previous(existing).entries);
      && Render(d, existing) == Some(Frame(preamble + Flatten(entries), d.body))
      && Render(d, Render(d, existing)) == Some(Frame(Stripped(preamble) + Flatten(entries), d.body))
      && Flatten(entries) != []
  {
    hide Framed, Loose, Writable, Says, Over, Frame, SplitMarkdown, Rendered, KeySet, FoldedKeys, Accepted, Group,
      Stable, ReadsBack, FormEntries;
    RoundTrip(d, existing);
    RenderedSplits(d, existing);
    PreviousIsLoose(existing);
    RenderedSays(d, Previous(existing).entries);
    var entries := Rendered(d, Previous(existing).entries);
    var written := Over(d, Previous(existing).entries, {}).written + KeySet(FORM_KEYS) + FoldedKeys(d.extra);
    RenderedAgain(d, entries, written);
    SaysFramed(d, entries, {}, written);
    ModeIsWritten(d, entries);
    EntryLines(entries);
  }

  /**
   * Rendering a writable draft over its own rendering changes nothing, if and only if no preamble line of the file
   * ends in a carriage return.
   */
  lemma RenderIsIdempotent(d: Draft, existing: Option<string>)
    requires Accepted(d) && Writable(d) && Editable(existing)
    ensures Render(d, existing).Some?
    ensures Render(d, Render(d, existing)) == Render(d, existing) <==> TidyFile(existing)
  {
    hide Writable, Accepted, Frame, SplitMarkdown, Rendered, Group, Stable, ReadsBack, Render;
    RenderedSplits(d, existing);
    var preamble := Previous(existing).preamble;
    TidyIsStripped(preamble);
    if TidyFile(existing) {
      TidyIsStable(existing);
      RenderTwice(d, existing);
    } else if Render(d, Render(d, existing)) == Render(d, existing) {
      FixedIsStable(d, existing);
      RenderTwice(d, existing);
      SameFrameSameLines(preamble, Flatten(Rendered(d, Previous(existing).entries)), d.body);
    }
  }

  /** Only over a stable file can rendering come to rest at once. */
  lemma FixedIsStable(d: Draft, existing: Option<string>)
    requires Accepted(d) && Writable(d) && Editable(existing)
    requires Render(d, Render(d, existing)) == Render(d, existing)
    ensures StableFile(existing)
  {
    hide Writable, Accepted, Frame, SplitMarkdown, Rendered, Group, Stable, ReadsBack, Render;
    RenderedSplits(d, existing);
    var once := Render(d, existing);
    RenderedSplits(d, once);
    var preamble := Previous(once).preamble;
    PreambleIsPrefix(Stripped(preamble));
    TidyIsStripped(preamble);
    TidyIsStable(once);
    RoundTripsExactlyWritable(d, once);
    RoundTripsExactlyWritable(d, existing);
  }

  // ---- unedited entries -----------------------------------------------------------------------------------

  /** Entry `i` is the first with its key, the form does not own it, and the draft holds it unchanged. */
  ghost predicate Unedited(d: Draft, es: seq<Entry>, i: nat)
    requires i < |es|
  {
    && Lower(es[i].key) !in FORM_KEYS
    && Field(es[i].key, EntryValueText(es[i])) in d.extra
    && forall k :: 0 <= k < i ==> Lower(es[k].key) != Lower(es[i].key)
  }

  /** Where an unedited entry ends up; later ones end up later. */
  lemma {:induction false} OverKeeps(d: Draft, es: seq<Entry>, written: set<string>, i: nat) returns (p: nat)
    requires ExtrasOk(d.extra) && i < |es| && Unedited(d, es, i) && Lower(es[i].key) !in written
    ensures p < |Over(d, es, written).entries| && Over(d, es, written).entries[p] == es[i]
    decreases es
  {
    hide FormEntries, EntryValueText, Lower, ExtrasOk, RenderExtra, FindExtra;
    var folded := Lower(es[0].key);
    var more := written + {folded};
    if i == 0 {
      FieldIsFound(d.extra, Field(es[0].key, EntryValueText(es[0])));
      p := 0;
    } else {
      UneditedTail(d, es, i);
      if folded in written {
        p := OverKeeps(d, es[1..], written, i - 1);
      } else if folded in FORM_KEYS {
        p := OverKeeps(d, es[1..], more, i - 1);
        p := p + |FormEntries(folded, d)|;
      } else if FindExtra(d.extra, folded).None? {
        p := OverKeeps(d, es[1..], written, i - 1);
      } else {
        p := OverKeeps(d, es[1..], more, i - 1);
        p := p + 1;
      }
    }
  }

  lemma FieldIsFound(extra: seq<Field>, f: Field)
    requires ExtrasOk(extra) && f in extra
    ensures FindExtra(extra, Lower(f.key)) == Some(f)
  {
    hide Lower, FieldOk;
    FindExtraIs(extra, f);
  }

  lemma UneditedTail(d: Draft, es: seq<Entry>, i: nat)
    requires 0 < i < |es| && Unedited(d, es, i)
    ensures Unedited(d, es[1..], i - 1) && Lower(es[0].key) != Lower(es[i].key)
  {
    hide EntryValueText, Lower;
    forall k | 0 <= k < i - 1 ensures Lower(es[1..][k].key) != Lower(es[1..][i - 1].key) {
      assert Lower(es[k + 1].key) != Lower(es[i].key);
    }
  }

  lemma {:induction false} OverKeepsOrder(d: Draft, es: seq<Entry>, written: set<string>, i: nat, j: nat)
    returns (p: nat, q: nat)
    requires ExtrasOk(d.extra) && i < j < |es| && Unedited(d, es, i) && Unedited(d, es, j)
    requires Lower(es[i].key) !in written && Lower(es[j].key) !in written
    ensures p < q < |Over(d, es, written).entries|
    ensures Over(d, es, written).entries[p] == es[i] && Over(d, es, written).entries[q] == es[j]
    decreases es
  {
    hide FormEntries, EntryValueText, Lower, ExtrasOk, RenderExtra, FindExtra;
    var folded := Lower(es[0].key);
    var more := written + {folded};
    UneditedTail(d, es, j);
    if i == 0 {
      FieldIsFound(d.extra, Field(es[0].key, EntryValueText(es[0])));
      p := 0;
      q := OverKeeps(d, es[1..], more, j - 1);
      q := q + 1;
    } else {
      UneditedTail(d, es, i);
      if folded in written {
        p, q := OverKeepsOrder(d, es[1..], written, i - 1, j - 1);
      } else if folded in FORM_KEYS {
        p, q := OverKeepsOrder(d, es[1..], more, i - 1, j - 1);
        p, q := p + |FormEntries(folded, d)|, q + |FormEntries(folded, d)|;
      } else if FindExtra(d.extra, folded).None? {
        p, q := OverKeepsOrder(d, es[1..], written, i - 1, j - 1);
      } else {
        p, q := OverKeepsOrder(d, es[1..], more, i - 1, j - 1);
        p, q := p + 1, q + 1;
      }
    }
  }

  /** Unedited entries keep their exact lines and their order. */
  lemma UneditedKeepLinesAndOrder(d: Draft, es: seq<Entry>, i: nat, j: nat)
    requires Accepted(d) && i < j < |es| && Unedited(d, es, i) && Unedited(d, es, j)
    ensures exists p, q :: 0 <= p < q < |Rendered(d, es)| && Rendered(d, es)[p] == es[i] && Rendered(d, es)[q] == es[j]
  {
    hide ExtrasOk, Unedited, Over, MissingForm, NewExtras;
    var p, q := OverKeepsOrder(d, es, {}, i, j);
    assert Rendered(d, es)[p] == es[i] && Rendered(d, es)[q] == es[j];
  }

  // ---- the renderer's loops -------------------------------------------------------------------------------

  /** The renderer: existing entries, then form keys and extras that were not among them. */
  method RenderAgentDefinition(d: Draft, existing: Option<string>) returns (text: Option<string>)
    ensures text == Render(d, existing)
  {
    hide SplitMarkdown, Frame, Over, MissingForm, NewExtras, Flatten;
    var preamble: seq<string>, entries: seq<Entry> := [], [];
    if existing.Some? {
      var m := SplitDefinition(existing.value);
      if m.None? { return None; }
      preamble, entries := m.value.preamble, m.value.entries;
    }
    var kept, written := RenderExisting(d, entries);
    var form := RenderMissing(d, written);
    var added := RenderNew(d, written);
    ThreeParts(Over(d, entries, {}).entries, MissingForm(d, FORM_KEYS, written), NewExtras(d.extra, written));
    assert preamble + (kept + form + added) == preamble + kept + form + added;
    assert [] + Flatten(Rendered(d, [])) == Flatten(Rendered(d, []));
    text := Some(Frame(preamble + kept + form + added, d.body));
  }

  lemma ThreeParts(a: seq<Entry>, b: seq<Entry>, c: seq<Entry>)
    ensures Flatten(a + b + c) == Flatten(a) + Flatten(b) + Flatten(c)
  {
    FlattenConcat(a, b);
    FlattenConcat(a + b, c);
  }

  lemma FlattenForm(key: string, d: Draft)
    requires key in FORM_KEYS
    ensures Flatten(FormEntries(key, d)) == RenderFormKey(key, d)
  {
    hide FormValue;
    if RenderFormKey(key, d) != [] {
      FlattenSingle(Entry(key, RenderFormKey(key, d)));
    }
  }

  /** The first loop: form keys and edited extras take the places of the entries they replace. */
  method RenderExisting(d: Draft, entries: seq<Entry>) returns (lines: seq<string>, written: set<string>)
    ensures lines == Flatten(Over(d, entries, {}).entries) && written == Over(d, entries, {}).written
  {
    hide FormEntries, RenderFormKey, ExtraEntry, FindExtra, Lower, Flatten;
    lines, written := [], {};
    ghost var goal := Over(d, entries, {});
    assert entries[0..] == entries;
    assert [] + Flatten(goal.entries) == Flatten(goal.entries);
    for i := 0 to |entries|
      invariant Flatten(goal.entries) == lines + Flatten(Over(d, entries[i..], written).entries)
      invariant goal.written == Over(d, entries[i..], written).written
    {
      var entry := entries[i];
      var folded := Lower(entry.key);
      assert entries[i..][0] == entry && entries[i..][1..] == entries[i + 1..];
      ghost var rest := Over(d, entries[i + 1..], written + {folded}).entries;
      if folded in written {
      } else if folded in FORM_KEYS {
        FlattenForm(folded, d);
        FlattenConcat(FormEntries(folded, d), rest);
        assert lines + (RenderFormKey(folded, d) + Flatten(rest)) == lines + RenderFormKey(folded, d) + Flatten(rest);
        lines := lines + RenderFormKey(folded, d);
        written := written + {folded};
      } else {
        var field := FindExtra(d.extra, folded);
        if field.Some? {
          ghost var e := ExtraEntry(field.value, entry);
          FlattenSingle(e);
          FlattenConcat([e], rest);
          assert lines + (e.lines + Flatten(rest)) == lines + e.lines + Flatten(rest);
          lines := lines + ExtraEntry(field.value, entry).lines;
          written := written + {folded};
        }
      }
    }
    assert entries[|entries|..] == [];
    FlattenNothing();
    assert lines + [] == lines;
  }

  lemma FlattenNothing()
    ensures Flatten([]) == []
  {
  }

  /** The second loop: form keys the file did not have. */
  method RenderMissing(d: Draft, written: set<string>) returns (lines: seq<string>)
    ensures lines == Flatten(MissingForm(d, FORM_KEYS, written))
  {
    hide FormEntries, RenderFormKey, Flatten;
    lines := [];
    ghost var goal := Flatten(MissingForm(d, FORM_KEYS, written));
    assert FORM_KEYS[0..] == FORM_KEYS && [] + goal == goal;
    for i := 0 to |FORM_KEYS|
      invariant goal == lines + Flatten(MissingForm(d, FORM_KEYS[i..], written))
    {
      var key := FORM_KEYS[i];
      assert FORM_KEYS[i..][0] == key && FORM_KEYS[i..][1..] == FORM_KEYS[i + 1..];
      ghost var rest := MissingForm(d, FORM_KEYS[i + 1..], written);
      if key !in written {
        FlattenForm(key, d);
        FlattenConcat(FormEntries(key, d), rest);
        assert lines + (RenderFormKey(key, d) + Flatten(rest)) == lines + RenderFormKey(key, d) + Flatten(rest);
        lines := lines + RenderFormKey(key, d);
      } else {
        assert [] + rest == rest;
      }
    }
    assert FORM_KEYS[|FORM_KEYS|..] == [];
    FlattenNothing();
    assert lines + [] == lines;
  }

  /** The third loop: extras the file did not have. */
  method RenderNew(d: Draft, written: set<string>) returns (lines: seq<string>)
    ensures lines == Flatten(NewExtras(d.extra, written))
  {
    hide RenderExtra, Flatten, Lower;
    lines := [];
    ghost var goal := Flatten(NewExtras(d.extra, written));
    assert d.extra[0..] == d.extra && [] + goal == goal;
    for i := 0 to |d.extra|
      invariant goal == lines + Flatten(NewExtras(d.extra[i..], written))
    {
      var field := d.extra[i];
      assert d.extra[i..][0] == field && d.extra[i..][1..] == d.extra[i + 1..];
      ghost var rest := NewExtras(d.extra[i + 1..], written);
      if Lower(field.key) !in written {
        ghost var e := Entry(field.key, RenderExtra(field));
        FlattenSingle(e);
        FlattenConcat([e], rest);
        assert lines + (e.lines + Flatten(rest)) == lines + e.lines + Flatten(rest);
        lines := lines + RenderExtra(field);
      } else {
        assert [] + rest == rest;
      }
    }
    assert d.extra[|d.extra|..] == [];
    FlattenNothing();
    assert lines + [] == lines;
  }
}

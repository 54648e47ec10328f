/**
 * What a reader of an agent file takes the form keys to say (apps/server/src/agent-definitions.ts, and the readers it
 * calls: packages/core/src/subagents/frontmatter.ts, packages/core/src/subagents/load.ts).
 */
module AgentValues {
  import opened Options
  import opened Splitting
  import opened Text
  import opened Decimals
  import opened AgentText
  import opened AgentDefinitions

  // ---- JSON strings ---------------------------------------------------------------------------------------

  function HexValue(c: char): (n: Option<nat>)
    ensures n.Some? ==> n.value < 16
  {
    if '0' <= c <= '9' then Some((c - '0') as nat)
    else if 'a' <= c <= 'f' then Some((c - 'a') as nat + 10)
    else if 'A' <= c <= 'F' then Some((c - 'A') as nat + 10)
    else None
  }

  /** The character of `\uXXXX`. None for other text, and for one half of a surrogate pair, which is no character. */
  function HexChar(s: string): Option<char>
    requires |s| == 4
  {
    var a, b, c, d := HexValue(s[0]), HexValue(s[1]), HexValue(s[2]), HexValue(s[3]);
    if a.None? || b.None? || c.None? || d.None? then None
    else
      var code := ((a.value * 16 + b.value) * 16 + c.value) * 16 + d.value;
      if 0xD800 <= code < 0xE000 then None else Some(code as char)
  }

  function Simple(c: char): Option<char> {
    match c
    case '\"' => Some('\"')
    case '\\' => Some('\\')
    case '/' => Some('/')
    case 'b' => Some('\U{8}')
    case 'f' => Some('\U{c}')
    case 'n' => Some('\n')
    case 'r' => Some('\r')
    case 't' => Some('\t')
    case _ => None
  }

  function Cons(c: Option<char>, rest: Option<string>): Option<string> {
    if c.None? || rest.None? then None else Some([c.value] + rest.value)
  }

  /** The rest of a JSON string, up to the quote that ends it. */
  function Unescape(s: string): Option<string> {
    if s == "" || s[0] < ' ' then None
    else if s[0] == '\"' then (if |s| == 1 then Some("") else None)
    else if s[0] != '\\' then Cons(Some(s[0]), Unescape(s[1..]))
    else if |s| >= 6 && s[1] == 'u' then Cons(HexChar(s[2..6]), Unescape(s[6..]))
    else if |s| >= 2 then Cons(Simple(s[1]), Unescape(s[2..]))
    else None
  }

  /** `JSON.parse` of a text that starts with a double quote. */
  function ReadJson(s: string): Option<string> {
    if s != "" && s[0] == '\"' then Unescape(s[1..]) else None
  }

  /** Hexadecimal digits, by code point. */
  lemma HexIs(c: char)
    ensures HexValue(c) ==
      if 48 <= c as int <= 57 then Some((c as int - 48) as nat)
      else if 97 <= c as int <= 102 then Some((c as int - 87) as nat)
      else if 65 <= c as int <= 70 then Some((c as int - 55) as nat)
      else None
  {
  }

  /** What an escape stands for: a code of four digits, or one of eight characters. */
  lemma EscapesAre(h: string, code: nat, rest: string)
    requires |h| == 4 && forall k :: 0 <= k < 4 ==> HexValue(h[k]).Some?
    requires code == HexValue(h[0]).value * 4096 + HexValue(h[1]).value * 256 + HexValue(h[2]).value * 16 +
      HexValue(h[3]).value
    ensures Unescape("\\u" + h + rest) ==
      Cons(if 0xD800 <= code <= 0xDFFF then None else Some(code as char), Unescape(rest))
    ensures Unescape("\\/" + rest) == Cons(Some('/'), Unescape(rest))
    ensures Unescape("\\") == None
  {
    hide HexValue;
    var s := "\\u" + h + rest;
    assert s[2..6] == h && s[6..] == rest;
    assert ("\\/" + rest)[2..] == rest;
  }

  lemma HexBack(n: nat)
    requires n < 16
    ensures HexValue(HexDigit(n)) == Some(n)
  {
  }

  lemma UnescapeChar(c: char, rest: string)
    ensures Unescape(JsonChar(c) + rest) == Cons(Some(c), Unescape(rest))
  {
    var s := JsonChar(c) + rest;
    if |JsonChar(c)| == 6 {
      var n := c as nat;
      HexBack(n / 16);
      HexBack(n % 16);
      assert s[2..6] == ['0', '0', HexDigit(n / 16), HexDigit(n % 16)] && s[6..] == rest;
      assert HexChar(s[2..6]) == Some(c);
    } else if |JsonChar(c)| == 2 {
      assert s[2..] == rest;
    } else {
      assert s[1..] == rest;
    }
  }

  lemma {:induction false} UnescapeChars(s: string)
    ensures Unescape(JsonChars(s) + "\"") == Some(s)
    decreases s
  {
    hide Unescape, JsonChar;
    if s == "" {
      assert JsonChars(s) + "\"" == "\"";
      EndOfString();
    } else {
      assert JsonChars(s) + "\"" == JsonChar(s[0]) + (JsonChars(s[1..]) + "\"");
      UnescapeChar(s[0], JsonChars(s[1..]) + "\"");
      UnescapeChars(s[1..]);
      assert [s[0]] + s[1..] == s;
    }
  }

  lemma EndOfString()
    ensures Unescape("\"") == Some("")
  {
  }

  /** A JSON string reads back as its text. */
  lemma JsonReadsBack(s: string)
    ensures ReadJson(JsonString(s)) == Some(s)
  {
    hide Unescape, JsonChars;
    UnescapeChars(s);
    assert JsonString(s)[1..] == JsonChars(s) + "\"";
  }

  // ---- scalars --------------------------------------------------------------------------------------------

  predicate IsQuote(c: char) { c == '\"' || c == '\'' }

  function StripQuotes(raw: string): string {
    var s := if raw != "" && IsQuote(raw[0]) then raw[1..] else raw;
    if s != "" && IsQuote(s[|s| - 1]) then s[..|s| - 1] else s
  }

  /** What a scalar says: a JSON string its text, anything else itself without the quotes around it. */
  function ScalarText(raw: string): string {
    var json := ReadJson(raw);
    if json.Some? then json.value else StripQuotes(raw)
  }

  /** Quotes around a text are taken away, one on each side, and nothing else. */
  lemma QuotesAreStripped(s: string)
    requires s != "" ==> !IsQuote(s[0]) && !IsQuote(s[|s| - 1])
    ensures StripQuotes(s) == s && StripQuotes("'" + s + "'") == s && StripQuotes("\"" + s + "\"") == s
  {
    assert ("'" + s + "'")[1..] == s + "'" && (s + "'")[..|s|] == s;
    assert ("\"" + s + "\"")[1..] == s + "\"" && (s + "\"")[..|s|] == s;
  }

  /** A key that is not there, a scalar on one line, or a block, a list or a map, which are not part of this model. */
  datatype Said = Missing | Scalar(text: string) | Structured

  predicate IsStructured(raw: string) {
    raw == "" || raw[0] == '[' || raw[0] == '{' ||
    ((raw[0] == '|' || raw[0] == '>') && (|raw| == 1 || (|raw| == 2 && (raw[1] == '+' || raw[1] == '-'))))
  }

  /** Block marks, and whatever begins like a list or a map, are no scalars on one line; nor is nothing. */
  lemma StructuredIs(raw: string)
    ensures IsStructured(raw) <==>
      || raw == "" || "[" <= raw || "{" <= raw
      || raw == "|" || raw == "|-" || raw == "|+" || raw == ">" || raw == ">-" || raw == ">+"
  {
  }

  lemma ManyLinesAreStructured(e: Entry)
    requires |e.lines| != 1
    ensures SaidBy(e).Structured?
  {
  }

  function SaidBy(e: Entry): Said {
    var raw := Trim(EntryValueText(e));
    if |e.lines| != 1 || IsStructured(raw) then Structured else Scalar(ScalarText(raw))
  }

  /** The last entry with a key counts. */
  function SaidUnder(es: seq<Entry>, key: string): Said {
    if es == [] then Missing
    else
      var last := es[|es| - 1];
      if Lower(last.key) == key then SaidBy(last) else SaidUnder(es[..|es| - 1], key)
  }

  // ---- the form -------------------------------------------------------------------------------------------

  datatype Form = Form(
    name: string, description: string, tools: Option<seq<string>>, mode: Mode, model: string, maxTurns: Option<nat>)

  /** `replace(/\s+/g, " ")`. */
  function Collapse(s: string): string
    decreases |s|
  {
    if s == "" then "" else if IsSpace(s[0]) then " " + Collapse(TrimStart(s)) else [s[0]] + Collapse(s[1..])
  }

  /** `split(",").map(trim).filter(Boolean)`. */
  function Items(parts: seq<string>): seq<string> {
    if parts == [] then []
    else (if Trim(parts[0]) == "" then [] else [Trim(parts[0])]) + Items(parts[1..])
  }

  function TextOr(s: Said, otherwise: string): string {
    if s.Scalar? then s.text else otherwise
  }

  function ModeOf(s: Said): Option<Mode> {
    if s.Missing? then Some(Edit)
    else if s.Scalar? && Trim(s.text) == "ask" then Some(Ask)
    else if s.Scalar? && Trim(s.text) == "edit" then Some(Edit)
    else None
  }

  /** `/^[1-9]\d*$/`, and a safe integer. */
  function TurnsOf(text: string): Option<nat> {
    if text != "" && text[0] != '0' then Decimal(text) else None
  }

  /** What the six form keys say. */
  datatype SaidForm = SaidForm(name: Said, description: Said, tools: Said, mode: Said, model: Said, maxTurns: Said)

  predicate AnyStructured(f: SaidForm) {
    f.name.Structured? || f.description.Structured? || f.tools.Structured? || f.mode.Structured? ||
    f.model.Structured? || f.maxTurns.Structured?
  }

  /** The form, as the editor reads it; None when the file is refused, or a form key is structured. */
  function FormFrom(f: SaidForm, id: string): Option<Form> {
    var mode := ModeOf(f.mode);
    var turns := if f.maxTurns.Scalar? then TurnsOf(Trim(f.maxTurns.text)) else None;
    if AnyStructured(f) || mode.None? || (f.maxTurns.Scalar? && turns.None?) then None
    else
      var name := Trim(TextOr(f.name, ""));
      Some(Form(
        if name == "" && f.name.Scalar? then id else name,
        Trim(Collapse(TextOr(f.description, ""))),
        if f.tools.Missing? then None else Some(Items(SplitOn(TextOr(f.tools, ""), ','))),
        mode.value, Trim(TextOr(f.model, "")), turns))
  }

  function FormOf(es: seq<Entry>, id: string): Option<Form> {
    FormFrom(
      SaidForm(
        SaidUnder(es, "name"), SaidUnder(es, "description"), SaidUnder(es, "tools"), SaidUnder(es, "mode"),
        SaidUnder(es, "model"), SaidUnder(es, "max-turns")),
      id)
  }

  /** What parseAgentDraft makes sure of besides. */
  predicate Normal(d: Draft) {
    && Trimmed(d.name) && Trimmed(d.description) && Trimmed(d.model)
    && (d.maxTurns.Some? ==> 1 <= d.maxTurns.value <= MAX_SAFE_INTEGER)
  }

  // ---- single keys read back ------------------------------------------------------------------------------

  lemma JsonIsScalar(s: string)
    ensures Trim(JsonString(s)) == JsonString(s) && !IsStructured(JsonString(s)) && ScalarText(JsonString(s)) == s
  {
    hide JsonChars, ReadJson, StripQuotes, Trim;
    JsonReadsBack(s);
    TrimTrimmed(JsonString(s));
  }

  lemma DigitsAreScalar(n: nat)
    ensures Trim(Digits(n)) == Digits(n) && !IsStructured(Digits(n)) && ScalarText(Digits(n)) == Digits(n)
  {
    hide Digits, Trim;
    var s := Digits(n);
    assert s[0] in s && s[|s| - 1] in s;
    TrimTrimmed(s);
  }

  lemma TurnsReadBack(n: nat)
    requires 1 <= n <= MAX_SAFE_INTEGER
    ensures TurnsOf(Digits(n)) == Some(n)
  {
    DigitsReadBack(n);
  }

  /** The texts that are numbers of turns are the numbers from 1 on that are safe, as they are written. */
  lemma TurnsIffWritten(text: string, n: nat)
    ensures TurnsOf(text) == Some(n) <==> 1 <= n <= MAX_SAFE_INTEGER && text == Digits(n)
  {
    hide Digits, ValueOf;
    DigitsReadBack(n);
    if TurnsOf(text) == Some(n) { ReadWritesBack(text); }
  }

  /** A value on one line is what is after the key. */
  lemma LineSays(key: string, text: string)
    requires Trim(text) == text && !IsStructured(text)
    ensures SaidBy(Entry(key, [key + ": " + text])) == Scalar(ScalarText(text))
  {
    hide Trim, IsStructured, ScalarText;
    var e := Entry(key, [key + ": " + text]);
    var inline := e.lines[0][|key| + 1..];
    assert inline == " " + text && StartsWith(inline, " ") && inline[1..] == text;
    JoinOne(text);
    assert e.lines[1..] == [] && [text] + [] == [text];
    assert EntryValueText(e) == text;
  }

  lemma JoinOne(text: string)
    ensures Join([text]) == text
  {
  }

  /** What a form key is written to say. */
  function Means(key: string, d: Draft): Said
    requires key in FORM_KEYS
  {
    if FormValue(key, d).None? then Missing
    else if key == "name" then Scalar(d.name)
    else if key == "description" then Scalar(d.description)
    else if key == "tools" then Scalar(JoinWith(d.tools.value, ", "))
    else if key == "mode" then Scalar(if d.mode.Ask? then "ask" else "edit")
    else if key == "model" then Scalar(d.model)
    else Scalar(Digits(d.maxTurns.value))
  }

  lemma FormKeySays(key: string, d: Draft)
    requires key in FORM_KEYS && FormValue(key, d).Some?
    ensures SaidBy(Entry(key, RenderFormKey(key, d))) == Means(key, d)
  {
    hide Trim, IsStructured, ScalarText, JsonString, Digits, JoinWith, SaidBy;
    var text := FormValue(key, d).value;
    if key == "max-turns" {
      DigitsAreScalar(d.maxTurns.value);
    } else {
      JsonIsScalar(Means(key, d).text);
    }
    LineSays(key, text);
  }

  lemma {:induction false} SaidUnderIs(es: seq<Entry>, key: string)
    ensures SaidUnder(es, key).Missing? ==> forall e <- es :: Lower(e.key) != key
    ensures !SaidUnder(es, key).Missing? ==> exists e <- es :: Lower(e.key) == key && SaidBy(e) == SaidUnder(es, key)
    decreases es
  {
    hide Lower, SaidBy;
    if es != [] {
      var n := |es| - 1;
      SaidUnderIs(es[..n], key);
      assert es == es[..n] + [es[n]];
      SaidIsNotMissing(es[n]);
    }
  }

  lemma SaidIsNotMissing(e: Entry)
    ensures !SaidBy(e).Missing?
  {
  }

  /** Entries that hold the draft's form keys say what the draft says. */
  lemma SaidReadsBack(d: Draft, es: seq<Entry>, key: string)
    requires ReadsBack(d, es) && key in FORM_KEYS
    ensures SaidUnder(es, key) == Means(key, d)
  {
    hide Lower, SaidBy, SaidUnder, FormValue, FORM_KEYS, Means;
    SaidUnderIs(es, key);
    assert forall e :: e in FormEntries(key, d) <==> e in es && Lower(e.key) == key;
    FormEntriesAre(key, d);
    if FormValue(key, d).Some? {
      var e := Entry(key, RenderFormKey(key, d));
      FormKeySays(key, d);
      assert e in FormEntries(key, d);
    }
  }

  lemma FormEntriesAre(key: string, d: Draft)
    requires key in FORM_KEYS
    ensures FormEntries(key, d) ==
      if FormValue(key, d).None? then [] else [Entry(key, RenderFormKey(key, d))]
    ensures FormValue(key, d).None? ==> Means(key, d).Missing?
  {
    hide FormValue;
  }

  // ---- tools and descriptions -----------------------------------------------------------------------------

  lemma ItemsAfterSpace(rest: string)
    ensures Items(SplitOn(" " + rest, ',')) == Items(SplitOn(rest, ','))
  {
    hide Trim;
    var parts := SplitOn(rest, ',');
    assert (" " + rest)[1..] == rest;
    assert SplitOn(" " + rest, ',') == [" " + parts[0]] + parts[1..];
    SpaceTrims(parts[0]);
    assert ([" " + parts[0]] + parts[1..])[1..] == parts[1..];
  }

  lemma SpaceTrims(s: string)
    ensures Trim(" " + s) == Trim(s)
  {
    TrimStartSpace(' ', s);
  }

  lemma ToolNameIsItem(name: string)
    requires ToolNameOk(name)
    ensures Trimmed(name) && Trim(name) == name && Without(name, ',')
  {
    assert name[0] in name && name[|name| - 1] in name;
    TrimTrimmed(name);
  }

  lemma {:induction false} ToolsReadBack(names: seq<string>)
    requires forall name <- names :: ToolNameOk(name)
    ensures Items(SplitOn(JoinWith(names, ", "), ',')) == names
    decreases names
  {
    hide ToolNameOk, Trim, SplitOn;
    if names == [] {
      NoItems();
    } else {
      var first := names[0];
      ToolNameIsItem(first);
      assert first != "" by { NameNotEmpty(first); }
      if |names| == 1 {
        SplitIsExact(first, ',');
        assert [first][1..] == [] && Items([]) == [] && names == [first];
      } else {
        var rest := JoinWith(names[1..], ", ");
        ToolsReadBack(names[1..]);
        assert JoinWith(names, ", ") == first + [','] + (" " + rest);
        SplitFirst(first, " " + rest, ',');
        ItemsAfterSpace(rest);
        var parts := SplitOn(" " + rest, ',');
        assert ([first] + parts)[1..] == parts;
        assert [first] + names[1..] == names;
      }
    }
  }

  lemma NoItems()
    ensures Items(SplitOn(JoinWith([], ", "), ',')) == []
  {
    assert Trim("") == "";
    assert [""][1..] == [] && Items([]) == [];
  }

  lemma NameNotEmpty(name: string)
    requires ToolNameOk(name)
    ensures name != ""
  {
  }

  /** White space is single blanks, none of them next to another. */
  predicate SingleSpaced(s: string) {
    forall i :: 0 <= i < |s| && IsSpace(s[i]) ==> s[i] == ' ' && (i + 1 < |s| ==> !IsSpace(s[i + 1]))
  }

  lemma {:induction false} CollapseShortens(s: string)
    ensures |Collapse(s)| <= |s|
    decreases |s|
  {
    if s != "" {
      if IsSpace(s[0]) { CollapseShortens(TrimStart(s)); } else { CollapseShortens(s[1..]); }
    }
  }

  /** Collapsing leaves exactly the texts that are single-spaced as they are. */
  lemma {:induction false} CollapseKeepsIff(s: string)
    ensures Collapse(s) == s <==> SingleSpaced(s)
    decreases |s|
  {
    hide IsSpace;
    if s != "" {
      var rest := s[1..];
      assert [s[0]] + rest == s;
      if IsSpace(s[0]) && rest != "" && IsSpace(rest[0]) {
        assert s[1] == rest[0] && IsSpace(s[1]);
        CollapseShortens(TrimStart(s));
        assert |TrimStart(s)| < |rest|;
      } else {
        assert IsSpace(s[0]) ==> TrimStart(s) == rest by { if IsSpace(s[0]) { OneSpace(s); } }
        CollapseKeepsIff(rest);
        SingleSpacedFirst(s);
        assert Collapse(s) == [if IsSpace(s[0]) then ' ' else s[0]] + Collapse(rest);
        SameTail(s, if IsSpace(s[0]) then ' ' else s[0], Collapse(rest));
      }
    }
  }

  lemma OneSpace(s: string)
    requires s != "" && IsSpace(s[0]) && (|s| > 1 ==> !IsSpace(s[1]))
    ensures TrimStart(s) == s[1..]
  {
  }

  lemma SameTail(s: string, c: char, tail: string)
    requires s != ""
    ensures [c] + tail == s <==> c == s[0] && tail == s[1..]
  {
    if [c] + tail == s { assert ([c] + tail)[1..] == tail; } else { assert s == [s[0]] + s[1..]; }
  }

  lemma SingleSpacedFirst(s: string)
    requires s != ""
    ensures SingleSpaced(s) <==>
      SingleSpaced(s[1..]) && (IsSpace(s[0]) ==> s[0] == ' ' && (|s| > 1 ==> !IsSpace(s[1])))
  {
    hide IsSpace;
    var rest := s[1..];
    if SingleSpaced(rest) && (IsSpace(s[0]) ==> s[0] == ' ' && (|s| > 1 ==> !IsSpace(s[1]))) {
      forall i | 0 <= i < |s| && IsSpace(s[i]) ensures s[i] == ' ' && (i + 1 < |s| ==> !IsSpace(s[i + 1])) {
        if i > 0 { assert s[i] == rest[i - 1] && (i + 1 < |s| ==> s[i + 1] == rest[i]); }
      }
    }
    if SingleSpaced(s) {
      forall i | 0 <= i < |rest| && IsSpace(rest[i])
        ensures rest[i] == ' ' && (i + 1 < |rest| ==> !IsSpace(rest[i + 1]))
      {
        assert rest[i] == s[i + 1] && (i + 1 < |rest| ==> rest[i + 1] == s[i + 2]);
      }
    }
  }

  // ---- the whole form -------------------------------------------------------------------------------------

  function Meant(d: Draft): SaidForm {
    SaidForm(
      Means("name", d), Means("description", d), Means("tools", d), Means("mode", d), Means("model", d),
      Means("max-turns", d))
  }

  lemma MeantIs(d: Draft)
    ensures Meant(d) == SaidForm(
      if d.name == "" then Missing else Scalar(d.name),
      if d.description == "" then Missing else Scalar(d.description),
      if d.tools.None? then Missing else Scalar(JoinWith(d.tools.value, ", ")),
      Scalar(if d.mode.Ask? then "ask" else "edit"),
      if d.model == "" then Missing else Scalar(d.model),
      if d.maxTurns.None? then Missing else Scalar(Digits(d.maxTurns.value)))
  {
    hide JsonString, JoinWith, Digits;
  }

  /** The form that a draft's form keys mean. */
  lemma FormMeant(d: Draft, id: string)
    requires Accepted(d) && Normal(d)
    ensures FormFrom(Meant(d), id) ==
      Some(Form(d.name, Trim(Collapse(d.description)), d.tools, d.mode, d.model, d.maxTurns))
  {
    hide Meant, Trim, Collapse, Items, Digits, SplitOn, JoinWith, TurnsOf, ToolNameOk, Trimmed, ExtrasOk;
    MeantIs(d);
    TrimTrimmed(d.name);
    TrimTrimmed(d.model);
    Words();
    if d.tools.Some? { ToolsReadBack(d.tools.value); }
    if d.maxTurns.Some? {
      DigitsAreScalar(d.maxTurns.value);
      TurnsReadBack(d.maxTurns.value);
    }
  }

  lemma Words()
    ensures Trim("") == "" && Trim("ask") == "ask" && Trim("edit") == "edit" && Collapse("") == ""
  {
    hide Trim;
    TrimTrimmed("");
    TrimTrimmed("ask");
    TrimTrimmed("edit");
  }

  /** The form read from entries that hold the draft's form keys. */
  lemma FormReadsAs(d: Draft, es: seq<Entry>, id: string)
    requires Accepted(d) && Normal(d) && ReadsBack(d, es)
    ensures FormOf(es, id) ==
      Some(Form(d.name, Trim(Collapse(d.description)), d.tools, d.mode, d.model, d.maxTurns))
  {
    hide ReadsBack, SaidUnder, Means, FormFrom, Accepted, Normal, Trim, Collapse;
    SaidReadsBack(d, es, "name");
    SaidReadsBack(d, es, "description");
    SaidReadsBack(d, es, "tools");
    SaidReadsBack(d, es, "mode");
    SaidReadsBack(d, es, "model");
    SaidReadsBack(d, es, "max-turns");
    FormMeant(d, id);
  }

  /**
   * A writable draft, written over a file and read again, gives the form back: name, tools, mode, model and turns as
   * they were, the description with white space collapsed; the whole form exactly if the description is single-spaced.
   */
  lemma ValuesRoundTrip(d: Draft, existing: Option<string>, id: string)
    requires Accepted(d) && Normal(d) && Writable(d) && Editable(existing) && StableFile(existing)
    ensures
      var text := Render(d, existing);
      && text.Some? && SplitMarkdown(text.value).Some?
      && var form := FormOf(SplitMarkdown(text.value).value.entries, id);
      && form == Some(Form(d.name, Trim(Collapse(d.description)), d.tools, d.mode, d.model, d.maxTurns))
      && (form.value.description == d.description <==> SingleSpaced(d.description))
  {
    hide Writable, SplitMarkdown, Rendered, ReadsBack, Stable, Accepted, FormOf, Render, Normal, Collapse, Trim,
      Editable, StableFile, Previous, SingleSpaced;
    RoundTrip(d, existing);
    FormReadsAs(d, Rendered(d, Previous(existing).entries), id);
    NormalDescription(d);
    DescriptionIsKeptIff(d.description);
  }

  lemma NormalDescription(d: Draft)
    requires Normal(d)
    ensures Trimmed(d.description)
  {
  }

  lemma DescriptionIsKeptIff(s: string)
    requires Trimmed(s)
    ensures Trim(Collapse(s)) == s <==> SingleSpaced(s)
  {
    hide Collapse, IsSpace;
    CollapseKeepsIff(s);
    CollapseTrimmed(s);
    TrimTrimmed(Collapse(s));
  }

  /** Collapsing leaves a text without white space at its ends such a text. */
  lemma {:induction false} CollapseTrimmed(s: string)
    requires s != "" ==> !IsSpace(s[|s| - 1])
    ensures
      var t := Collapse(s);
      && (s == "" <==> t == "") && (s != "" ==> !IsSpace(t[|t| - 1]) && (!IsSpace(s[0]) ==> t[0] == s[0]))
    decreases |s|
  {
    if s != "" {
      var rest := if IsSpace(s[0]) then TrimStart(s) else s[1..];
      TrimStartKeepsEnd(s);
      CollapseTrimmed(rest);
    }
  }

  lemma {:induction false} TrimStartKeepsEnd(s: string)
    requires s != "" && !IsSpace(s[|s| - 1])
    ensures TrimStart(s) != "" && TrimStart(s)[|TrimStart(s)| - 1] == s[|s| - 1]
    decreases s
  {
    if IsSpace(s[0]) { TrimStartKeepsEnd(s[1..]); }
  }
}

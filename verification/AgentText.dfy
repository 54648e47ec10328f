/** Frontmatter framing of agent definition files (apps/server/src/agent-definitions.ts). */
module AgentText {
  import opened Options
  import opened Splitting
  import opened Text

  // ---- lines ----------------------------------------------------------------------------------------------

  /** `lines.join("\n")`. */
  function Join(lines: seq<string>): string { JoinWith(lines, "\n") }

  /** `s.split("\n")`. */
  function Split(s: string): (lines: seq<string>)
    ensures lines != []
  {
    SplitOn(s, '\n')
  }

  /** `s.split(/\r?\n/)`: a carriage return before the newline belongs to the separator. */
  function SplitCrLf(s: string): (lines: seq<string>)
    ensures lines != []
  {
    if s == "" then [""]
    else
      var rest := SplitCrLf(s[1..]);
      if s[0] == '\n' then [""] + rest
      else if s[0] == '\r' && |s| > 1 && s[1] == '\n' then rest
      else [[s[0]] + rest[0]] + rest[1..]
  }

  /** A line as splitting yields it. */
  predicate Flat(line: string) { forall c <- line :: c != '\n' }

  predicate AllFlat(lines: seq<string>) {
    forall line <- lines :: Flat(line)
  }

  predicate EndsInCr(line: string) { line != "" && line[|line| - 1] == '\r' }

  /** A line that survives being written between newlines and read back. */
  predicate Clean(line: string) { Flat(line) && !EndsInCr(line) }

  predicate AllClean(lines: seq<string>) {
    forall line <- lines :: Clean(line)
  }

  /** What is read back of a line: a carriage return at its end goes with the newline. */
  function StripCr(line: string): string {
    if EndsInCr(line) then line[..|line| - 1] else line
  }

  function Stripped(lines: seq<string>): (r: seq<string>)
    ensures |r| == |lines| && forall k :: 0 <= k < |r| ==> r[k] == StripCr(lines[k])
  {
    seq(|lines|, k requires 0 <= k < |lines| => StripCr(lines[k]))
  }

  predicate StartsWith(s: string, prefix: string) {
    prefix <= s
  }

  // ---- keys -----------------------------------------------------------------------------------------------

  predicate IsLetter(c: char) { 'a' <= c <= 'z' || 'A' <= c <= 'Z' }

  predicate IsKeyChar(c: char) { IsLetter(c) || '0' <= c <= '9' || c == '_' || c == '-' }

  predicate IsKey(key: string) {
    key != "" && IsLetter(key[0]) && forall c <- key :: IsKeyChar(c)
  }

  /** `[A-Za-z]` and `[A-Za-z0-9_-]`, by code point. */
  lemma KeyCharsAre(c: char)
    ensures IsLetter(c) <==> 65 <= c as int <= 90 || 97 <= c as int <= 122
    ensures IsKeyChar(c) <==> IsLetter(c) || 48 <= c as int <= 57 || c as int == 95 || c as int == 45
  {
  }

  /** The characters `.` does not match. */
  predicate IsTerminator(c: char) { c == '\n' || c == '\r' || c == '\U{2028}' || c == '\U{2029}' }

  predicate OneLine(s: string) { forall c <- s :: !IsTerminator(c) }

  /** First index that does not hold a key character. */
  function KeyEnd(line: string): (n: nat)
    ensures n <= |line|
    ensures forall k :: 0 <= k < n ==> IsKeyChar(line[k])
    ensures n < |line| ==> !IsKeyChar(line[n])
  {
    if line != "" && IsKeyChar(line[0]) then
      var m := KeyEnd(line[1..]);
      assert forall k :: 0 < k < m + 1 ==> line[k] == line[1..][k - 1];
      m + 1
    else 0
  }

  /** The key of a line that starts an entry: `key:` and anything `.` matches up to the end. */
  function KeyOf(line: string): Option<string> {
    var n := KeyEnd(line);
    if 0 < n < |line| && IsLetter(line[0]) && line[n] == ':' && OneLine(line[n + 1..]) then Some(line[..n]) else None
  }

  // ---- splitting a definition -----------------------------------------------------------------------------

  datatype Entry = Entry(key: string, lines: seq<string>)
  datatype Grouped = Grouped(preamble: seq<string>, entries: seq<Entry>)
  datatype Definition = Definition(preamble: seq<string>, entries: seq<Entry>, body: string)

  /** One line of the frontmatter: a new entry, a further line of the last one, or preamble. */
  function Push(g: Grouped, line: string): Grouped {
    match KeyOf(line)
    case Some(key) => g.(entries := g.entries + [Entry(key, [line])])
    case None =>
      if g.entries == [] then g.(preamble := g.preamble + [line])
      else
        var last := g.entries[|g.entries| - 1];
        g.(entries := g.entries[..|g.entries| - 1] + [last.(lines := last.lines + [line])])
  }

  function Group(lines: seq<string>): Grouped {
    if lines == [] then Grouped([], []) else Push(Group(lines[..|lines| - 1]), lines[|lines| - 1])
  }

  lemma PushLines(lines: seq<string>, line: string)
    ensures Group(lines + [line]) == Push(Group(lines), line)
  {
    assert (lines + [line])[..|lines|] == lines;
  }

  /** Length of the opening fence; 0 when there is none. */
  function OpenLength(s: string): (n: nat)
    ensures n <= |s|
  {
    if StartsWith(s, "---\n") then 4 else if StartsWith(s, "---\r\n") then 5 else 0
  }

  predicate ClosesAt(s: string, e: nat)
    requires e <= |s|
  {
    StartsWith(s[e..], "\n---") || StartsWith(s[e..], "\r\n---")
  }

  /** First place at or after `i` where the closing fence matches; `|s| + 1` when there is none. */
  function FindClose(s: string, i: nat): (e: nat)
    requires i <= |s|
    ensures i <= e <= |s| + 1
    ensures e <= |s| ==> ClosesAt(s, e)
    decreases |s| - i
  {
    if ClosesAt(s, i) then i else if i == |s| then |s| + 1 else FindClose(s, i + 1)
  }

  function CloseLength(s: string, e: nat): (n: nat)
    requires e <= |s| && ClosesAt(s, e)
    ensures e + n <= |s|
  {
    if s[e] == '\n' then 4 else 5
  }

  /** The parts of a framed definition; None when the text is not framed. */
  function SplitMarkdown(s: string): Option<Definition> {
    var start := OpenLength(s);
    if start == 0 then None
    else
      var e := FindClose(s, start);
      if e > |s| then None
      else
        var g := Group(SplitCrLf(s[start..e]));
        Some(Definition(g.preamble, g.entries, Trim(s[e + CloseLength(s, e)..])))
  }

  /** The splitter's loop over the frontmatter lines. */
  method SplitDefinition(s: string) returns (r: Option<Definition>)
    ensures r == SplitMarkdown(s)
  {
    hide FindClose, SplitCrLf, KeyOf, OpenLength, CloseLength, Trim;
    var start := OpenLength(s);
    if start == 0 { return None; }
    var e := FindClose(s, start);
    if e > |s| { return None; }
    var lines := SplitCrLf(s[start..e]);
    var preamble: seq<string> := [];
    var entries: seq<Entry> := [];
    for i := 0 to |lines|
      invariant Grouped(preamble, entries) == Group(lines[..i])
    {
      var line := lines[i];
      var key := KeyOf(line);
      PushLines(lines[..i], line);
      assert lines[..i + 1] == lines[..i] + [line];
      if key.Some? {
        entries := entries + [Entry(key.value, [line])];
      } else if |entries| > 0 {
        var last := entries[|entries| - 1];
        entries := entries[..|entries| - 1] + [last.(lines := last.lines + [line])];
      } else {
        preamble := preamble + [line];
      }
    }
    assert lines[..|lines|] == lines;
    return Some(Definition(preamble, entries, Trim(s[e + CloseLength(s, e)..])));
  }

  // ---- writing a definition -------------------------------------------------------------------------------

  function Frame(lines: seq<string>, body: string): string {
    "---\n" + Join(lines) + "\n---\n" + (if body == "" then "" else "\n" + body + "\n")
  }

  /** The lines of a list of entries, in order. */
  function Flatten(entries: seq<Entry>): seq<string> {
    if entries == [] then [] else entries[0].lines + Flatten(entries[1..])
  }

  /** An entry whose lines read back as that entry. */
  predicate Framed(e: Entry) {
    && e.lines != [] && KeyOf(e.lines[0]) == Some(e.key)
    && (forall k :: 1 <= k < |e.lines| ==> KeyOf(e.lines[k]).None? && !StartsWith(e.lines[k], "---"))
    && AllClean(e.lines)
  }

  /** An entry as splitting yields it: its lines may end in carriage returns. */
  predicate Loose(e: Entry) {
    && e.lines != [] && KeyOf(e.lines[0]) == Some(e.key)
    && (forall k :: 1 <= k < |e.lines| ==> KeyOf(e.lines[k]).None? && !StartsWith(e.lines[k], "---"))
    && AllFlat(e.lines)
  }

  /** A preamble as splitting yields it; only the very first line may look like a fence. */
  predicate LoosePreamble(preamble: seq<string>) {
    && AllFlat(preamble)
    && (forall line <- preamble :: KeyOf(line).None?)
    && (forall k :: 1 <= k < |preamble| ==> !StartsWith(preamble[k], "---"))
  }

  /** No preamble line turns into a key when it loses the carriage return at its end. */
  predicate Stable(preamble: seq<string>) {
    forall line <- preamble :: KeyOf(StripCr(line)).None?
  }

  // ---- reading back what was written ----------------------------------------------------------------------

  lemma FlatTail(line: string)
    requires Flat(line) && line != ""
    ensures Flat(line[1..]) && line[0] != '\n'
    ensures |line| > 1 ==> line[1] != '\n' && StripCr(line) == [line[0]] + StripCr(line[1..])
    ensures |line| == 1 ==> line == [line[0]] && StripCr(line) == if line[0] == '\r' then "" else line
  {
    assert forall c <- line[1..] :: c in line;
    assert line[0] in line;
    if |line| > 1 { assert line[1] in line && line[1..][|line| - 2] == line[|line| - 1]; }
  }

  lemma {:induction false} SplitFirstLine(line: string, rest: string)
    requires Flat(line)
    ensures SplitCrLf(line + "\n" + rest) == [StripCr(line)] + SplitCrLf(rest)
    decreases line
  {
    hide Flat, StripCr;
    var s := line + "\n" + rest;
    if line == "" {
      assert s[1..] == rest;
      StripNothing();
    } else {
      assert s[1..] == line[1..] + "\n" + rest && s[0] == line[0];
      assert s[1] == if |line| > 1 then line[1] else '\n';
      FlatTail(line);
      SplitFirstLine(line[1..], rest);
      assert ([StripCr(line[1..])] + SplitCrLf(rest))[1..] == SplitCrLf(rest);
      if |line| == 1 {
        StripNothing();
        assert line[1..] == "" && [line[0]] + "" == line;
      }
    }
  }

  lemma StripNothing()
    ensures StripCr("") == "" && Flat("")
  {
  }

  lemma {:induction false} SplitOne(line: string)
    requires Clean(line)
    ensures SplitCrLf(line) == [line]
    decreases line
  {
    if line != "" {
      FlatTail(line);
      assert |line| > 1 ==> line[1..][|line| - 2] == line[|line| - 1];
      SplitOne(line[1..]);
      assert [line[0]] + line[1..] == line;
    }
  }

  lemma {:induction false} SplitJoin(lines: seq<string>)
    requires lines != [] && AllFlat(lines) && Clean(lines[|lines| - 1])
    ensures SplitCrLf(Join(lines)) == Stripped(lines)
    decreases lines
  {
    hide SplitCrLf, StripCr, Flat, EndsInCr, Join;
    if |lines| == 1 {
      SplitOne(lines[0]);
      JoinOne(lines);
      StripClean(lines[0]);
      assert Stripped(lines) == [StripCr(lines[0])];
    } else {
      var rest := lines[1..];
      assert forall k :: 0 <= k < |rest| ==> rest[k] == lines[k + 1];
      SplitFirstLine(lines[0], Join(rest));
      SplitJoin(rest);
      JoinMore(lines);
      assert Stripped(lines) == [StripCr(lines[0])] + Stripped(rest);
    }
  }

  lemma StripClean(line: string)
    requires Clean(line)
    ensures StripCr(line) == line
  {
  }

  lemma JoinOne(lines: seq<string>)
    requires |lines| == 1
    ensures Join(lines) == lines[0]
  {
  }

  lemma JoinMore(lines: seq<string>)
    requires |lines| > 1
    ensures Join(lines) == lines[0] + "\n" + Join(lines[1..])
  {
  }

  /** No line but the first looks like a fence. */
  predicate NoFence(lines: seq<string>) {
    forall k :: 1 <= k < |lines| ==> !StartsWith(lines[k], "---")
  }

  /** A line ended by a newline starts with a fence only if it holds the whole fence. */
  lemma FenceWithinLine(line: string, rest: string)
    requires !StartsWith(line, "---")
    ensures !StartsWith(line + "\n" + rest, "---")
  {
    var s := line + "\n" + rest;
    if |line| < 3 {
      assert s[|line|] == '\n' && "---"[|line|] == '-';
    } else {
      assert s[..3] == line[..3];
    }
  }

  /** Lines that do not look like fences do not close the frontmatter before its end. */
  lemma {:induction false} NoEarlyClose(lines: seq<string>, tail: string, k: nat)
    requires lines != [] && AllFlat(lines) && Clean(lines[|lines| - 1]) && NoFence(lines)
    requires k < |Join(lines)|
    ensures !ClosesAt(Join(lines) + "\n---" + tail, k)
    decreases lines
  {
    var s := Join(lines) + "\n---" + tail;
    var line := lines[0];
    if |lines| == 1 {
      NoCloseInLine(line, "---" + tail, k);
      assert s == line + "\n" + ("---" + tail);
    } else {
      var rest := Join(lines[1..]) + "\n---" + tail;
      assert s == line + "\n" + rest;
      FirstLineOfJoin(lines[1..], tail);
      if k < |line| {
        NoCloseInLine(line, rest, k);
      } else if k == |line| {
        assert s[k..] == "\n" + rest;
        NotAfterNewline(rest);
      } else {
        NoEarlyClose(lines[1..], tail, k - |line| - 1);
        assert s[k..] == rest[k - |line| - 1..];
      }
    }
  }

  lemma NotAfterNewline(rest: string)
    requires !StartsWith(rest, "---")
    ensures !StartsWith("\n" + rest, "\n---") && !StartsWith("\n" + rest, "\r\n---")
  {
    var s := "\n" + rest;
    assert s[0] == '\n' && "\r\n---"[0] == '\r';
    if |s| >= 4 {
      assert s[..4] == "\n" + rest[..3];
      assert "\n---" == "\n" + "---";
      assert ("\n" + rest[..3])[1..] == rest[..3] && ("\n" + "---")[1..] == "---";
    }
  }

  lemma FirstLineOfJoin(lines: seq<string>, tail: string)
    requires lines != [] && !StartsWith(lines[0], "---")
    ensures !StartsWith(Join(lines) + "\n---" + tail, "---")
  {
    if |lines| == 1 {
      FenceWithinLine(lines[0], "---" + tail);
      assert Join(lines) + "\n---" + tail == lines[0] + "\n" + ("---" + tail);
    } else {
      FenceWithinLine(lines[0], Join(lines[1..]) + "\n---" + tail);
      assert Join(lines) + "\n---" + tail == lines[0] + "\n" + (Join(lines[1..]) + "\n---" + tail);
    }
  }

  lemma NoCloseInLine(line: string, rest: string, k: nat)
    requires Flat(line) && k < |line| && (Clean(line) || !StartsWith(rest, "---"))
    ensures !ClosesAt(line + "\n" + rest, k)
  {
    var s := line + "\n" + rest;
    assert line[k] in line && (k + 1 < |line| ==> line[k + 1] in line);
    assert "\n---"[0] == '\n' && "\r\n---"[0] == '\r' && "\r\n---"[1] == '\n';
    assert s[k..][0] == line[k] && s[k..][1] == (if k + 1 < |line| then line[k + 1] else '\n');
    if k + 1 == |line| && line[k] == '\r' {
      assert s[k..] == "\r" + ("\n" + rest);
      NotAfterCr(rest);
    }
  }

  lemma NotAfterCr(rest: string)
    requires !StartsWith(rest, "---")
    ensures !StartsWith("\r" + ("\n" + rest), "\r\n---")
  {
    var s := "\r" + ("\n" + rest);
    if |s| >= 5 {
      assert s[..5] == "\r\n" + rest[..3];
      assert "\r\n---" == "\r\n" + "---";
      assert ("\r\n" + rest[..3])[2..] == rest[..3] && ("\r\n" + "---")[2..] == "---";
    }
  }

  lemma {:induction false} FindCloseIs(s: string, i: nat, e: nat)
    requires i <= e <= |s| && ClosesAt(s, e)
    requires forall k :: i <= k < e ==> !ClosesAt(s, k)
    ensures FindClose(s, i) == e
    decreases e - i
  {
    if i < e {
      FindCloseIs(s, i + 1, e);
    }
  }

  lemma PushOnLast(g: Grouped, e: Entry, line: string)
    requires KeyOf(line).None?
    ensures Push(g.(entries := g.entries + [e]), line) ==
      g.(entries := g.entries + [e.(lines := e.lines + [line])])
  {
    assert (g.entries + [e])[..|g.entries|] == g.entries;
  }

  /** Lines without keys stay with the entry they follow. */
  lemma {:induction false} GroupEntry(before: seq<string>, e: Entry, n: nat)
    requires Framed(e) && 1 <= n <= |e.lines|
    ensures
      var g := Group(before);
      Group(before + e.lines[..n]) == g.(entries := g.entries + [e.(lines := e.lines[..n])])
    decreases n
  {
    hide Group, KeyOf, StartsWith, AllClean;
    var g, last := Group(before), e.lines[n - 1];
    assert before + e.lines[..n] == (before + e.lines[..n - 1]) + [last];
    PushLines(before + e.lines[..n - 1], last);
    if n == 1 {
      assert before + e.lines[..0] == before;
      assert e.lines[..1] == [last];
    } else {
      GroupEntry(before, e, n - 1);
      PushOnLast(g, e.(lines := e.lines[..n - 1]), last);
      assert e.lines[..n] == e.lines[..n - 1] + [last];
    }
  }

  lemma {:induction false} GroupPreamble(preamble: seq<string>)
    requires forall line <- preamble :: KeyOf(line).None?
    ensures Group(preamble) == Grouped(preamble, [])
    decreases preamble
  {
    hide KeyOf;
    if preamble != [] {
      var n := |preamble| - 1;
      GroupPreamble(preamble[..n]);
      assert preamble == preamble[..n] + [preamble[n]];
    }
  }

  /** Lines one of which is a key do not make up a preamble. */
  lemma {:induction false} GroupHasEntry(lines: seq<string>, k: nat)
    requires k < |lines| && KeyOf(lines[k]).Some?
    ensures Group(lines).entries != []
    decreases lines
  {
    hide KeyOf;
    var n := |lines| - 1;
    if k < n { GroupHasEntry(lines[..n], k); }
  }

  lemma {:induction false} PreambleAlone(lines: seq<string>)
    ensures Group(lines).entries == [] ==> Group(lines).preamble == lines
    decreases lines
  {
    hide KeyOf;
    if lines != [] {
      var n := |lines| - 1;
      PreambleAlone(lines[..n]);
      assert lines == lines[..n] + [lines[n]];
    }
  }

  /** The preamble is the beginning of the lines. */
  lemma {:induction false} PreambleIsPrefix(lines: seq<string>)
    ensures Group(lines).preamble <= lines
    ensures Group(lines).preamble == lines ==> Group(lines).entries == []
    decreases lines
  {
    hide KeyOf;
    if lines != [] {
      var n := |lines| - 1;
      var before := Group(lines[..n]);
      PreambleIsPrefix(lines[..n]);
      PushLines(lines[..n], lines[n]);
      assert lines == lines[..n] + [lines[n]];
      assert |before.preamble| <= n;
      if KeyOf(lines[n]).None? && before.entries == [] {
        PreambleAlone(lines[..n]);
      }
    }
  }

  /** Entries read back from their lines, after whatever the lines before them were. */
  lemma {:induction false} GroupFlatten(before: seq<string>, entries: seq<Entry>)
    requires forall e <- entries :: Framed(e)
    ensures Group(before + Flatten(entries)) == Group(before).(entries := Group(before).entries + entries)
    decreases entries
  {
    hide KeyOf, Group, StartsWith, AllClean;
    if entries == [] {
      assert before + Flatten(entries) == before && Group(before).entries + [] == Group(before).entries;
    } else {
      var n := |entries| - 1;
      FlattenLast(entries);
      GroupFlatten(before, entries[..n]);
      GroupEntry(before + Flatten(entries[..n]), entries[n], |entries[n].lines|);
      assert entries[n].lines[..|entries[n].lines|] == entries[n].lines;
      assert before + Flatten(entries) == before + Flatten(entries[..n]) + entries[n].lines;
      assert entries == entries[..n] + [entries[n]];
      assert Group(before).entries + entries == Group(before).entries + entries[..n] + [entries[n]];
    }
  }

  lemma {:induction false} FlattenConcat(a: seq<Entry>, b: seq<Entry>)
    ensures Flatten(a + b) == Flatten(a) + Flatten(b)
    decreases a
  {
    if a == [] {
      assert a + b == b;
    } else {
      assert (a + b)[1..] == a[1..] + b;
      FlattenConcat(a[1..], b);
    }
  }

  lemma FlattenLast(entries: seq<Entry>)
    requires entries != []
    ensures Flatten(entries) == Flatten(entries[..|entries| - 1]) + entries[|entries| - 1].lines
  {
    var n := |entries| - 1;
    assert entries == entries[..n] + [entries[n]];
    FlattenConcat(entries[..n], [entries[n]]);
    assert Flatten([entries[n]]) == entries[n].lines;
  }

  /** The body is written between newlines, which trimming takes away again. */
  lemma TrimBody(body: string)
    requires Trimmed(body)
    ensures Trim("\n" + (if body == "" then "" else "\n" + body + "\n")) == body
  {
    var inner := if body == "" then "" else "\n" + body + "\n";
    TrimStartSpace('\n', inner);
    assert ['\n'] + inner == "\n" + inner;
    if body != "" {
      TrimAround('\n', body, '\n');
      assert ['\n'] + (body + ['\n']) == inner;
    }
  }

  /** A framed text: its lines, without carriage returns at their ends, and its body read back. */
  lemma SplitFrame(lines: seq<string>, body: string)
    requires lines != [] && AllFlat(lines) && Clean(lines[|lines| - 1]) && NoFence(lines) && Trimmed(body)
    ensures
      var g := Group(Stripped(lines));
      SplitMarkdown(Frame(lines, body)) == Some(Definition(g.preamble, g.entries, body))
  {
    hide Group, Join, Clean, Trim, SplitCrLf;
    var after := "\n" + (if body == "" then "" else "\n" + body + "\n");
    var s, joined := Frame(lines, body), Join(lines);
    FrameParts(joined, after);
    assert s == "---\n" + joined + "\n---" + after;
    var e := 4 + |joined|;
    assert ClosesAt(s, e);
    forall k | 4 <= k < e ensures !ClosesAt(s, k) {
      NoEarlyClose(lines, after, k - 4);
      assert s[k..] == (joined + "\n---" + after)[k - 4..];
    }
    FindCloseIs(s, 4, e);
    SplitJoin(lines);
    TrimBody(body);
  }

  lemma FrameParts(joined: string, after: string)
    ensures
      var s := "---\n" + joined + "\n---" + after;
      var e := 4 + |joined|;
      && OpenLength(s) == 4 && ClosesAt(s, e) && CloseLength(s, e) == 4
      && s[4..e] == joined && s[e + 4..] == after
  {
    var s := "---\n" + joined + "\n---" + after;
    var e := 4 + |joined|;
    assert s[..4] == "---\n";
    assert s[e..] == "\n---" + after;
    assert s[e..][..4] == "\n---";
  }

  // ---- what splitting yields ------------------------------------------------------------------------------

  lemma {:induction false} SplitHasNoNewlines(s: string, k: nat)
    requires k < |SplitCrLf(s)|
    ensures forall c <- SplitCrLf(s)[k] :: c != '\n'
    decreases s
  {
    if s != "" {
      var rest := SplitCrLf(s[1..]);
      if s[0] == '\n' {
        if k > 0 { SplitHasNoNewlines(s[1..], k - 1); }
      } else {
        SplitHasNoNewlines(s[1..], k);
      }
    }
  }

  lemma {:induction false} FirstLineIsPrefix(s: string)
    ensures SplitCrLf(s)[0] <= s
    decreases s
  {
    if s != "" && s[0] != '\n' && !(s[0] == '\r' && |s| > 1 && s[1] == '\n') {
      FirstLineIsPrefix(s[1..]);
    } else if s != "" && s[0] == '\r' {
      assert SplitCrLf(s[1..])[0] == "";
    }
  }

  /** A later line that looks like a fence is a place where the frontmatter closes. */
  lemma {:induction false} FenceCloses(s: string, k: nat) returns (p: nat)
    requires 1 <= k < |SplitCrLf(s)| && StartsWith(SplitCrLf(s)[k], "---")
    ensures p < |s| && ClosesAt(s, p)
    decreases s
  {
    var rest := SplitCrLf(s[1..]);
    if s[0] == '\n' && k == 1 {
      FirstLineIsPrefix(s[1..]);
      p := 0;
      assert s[1..][..3] == "---";
      assert s[0..][..4] == "\n---";
    } else {
      p := FenceCloses(s[1..], if s[0] == '\n' then k - 1 else k);
      assert s[1..][p..] == s[p + 1..];
      p := p + 1;
    }
  }

  lemma CloseInside(s: string, start: nat, end: nat, p: nat)
    requires start <= end <= |s| && p < end - start && ClosesAt(s[start..end], p)
    ensures ClosesAt(s, start + p)
  {
    var t := s[start..end];
    assert t[p..] == s[start + p..end];
    assert forall n :: 0 <= n <= |t[p..]| ==> t[p..][..n] == s[start + p..][..n];
  }

  lemma {:induction false} FindCloseIsFirst(s: string, i: nat, k: nat)
    requires i <= k <= |s| && k < FindClose(s, i)
    ensures !ClosesAt(s, k)
    decreases k - i
  {
    if i < k {
      FindCloseIsFirst(s, i + 1, k);
    }
  }

  /** The frontmatter lines of a framed text. */
  function FrontLines(s: string): seq<string>
    requires SplitMarkdown(s).Some?
  {
    var start := OpenLength(s);
    SplitCrLf(s[start..FindClose(s, start)])
  }

  lemma FrontLinesHaveNoFence(s: string)
    requires SplitMarkdown(s).Some?
    ensures NoFence(FrontLines(s))
  {
    hide SplitCrLf, StartsWith, ClosesAt, FindClose, Group, Trim, OpenLength;
    var start := OpenLength(s);
    var e := FindClose(s, start);
    var lines := FrontLines(s);
    forall k | 1 <= k < |lines| ensures !StartsWith(lines[k], "---") {
      if StartsWith(lines[k], "---") {
        var p := FenceCloses(s[start..e], k);
        CloseInside(s, start, e, p);
        FindCloseIsFirst(s, start, start + p);
        assert false;
      }
    }
  }

  /** Grouping keeps every line, in order, and makes entries as splitting yields them. */
  lemma {:induction false} GroupKeeps(lines: seq<string>)
    requires AllFlat(lines) && NoFence(lines)
    ensures
      var g := Group(lines);
      && lines == g.preamble + Flatten(g.entries)
      && LoosePreamble(g.preamble) && (forall e <- g.entries :: Loose(e))
    decreases lines
  {
    if lines != [] {
      hide KeyOf, StartsWith, Flat, Flatten;
      var n := |lines| - 1;
      assert AllFlat(lines[..n]) by { assert forall line <- lines[..n] :: line in lines; }
      GroupKeeps(lines[..n]);
      assert lines == lines[..n] + [lines[n]];
      PushKeeps(lines[..n], Group(lines[..n]), lines[n]);
    } else {
      assert Group(lines) == Grouped([], []);
    }
  }

  lemma PushKeeps(lines: seq<string>, g: Grouped, line: string)
    requires lines == g.preamble + Flatten(g.entries)
    requires LoosePreamble(g.preamble) && forall e <- g.entries :: Loose(e)
    requires Flat(line) && (lines != [] ==> !StartsWith(line, "---"))
    ensures
      var h := Push(g, line);
      && lines + [line] == h.preamble + Flatten(h.entries)
      && LoosePreamble(h.preamble) && (forall e <- h.entries :: Loose(e))
  {
    hide KeyOf, StartsWith, Loose, Flatten, LoosePreamble;
    if KeyOf(line).Some? {
      PushKey(lines, g, line);
    } else if g.entries != [] {
      PushMore(lines, g, line);
    } else {
      PushPreamble(lines, g, line);
    }
  }

  lemma PushPreamble(lines: seq<string>, g: Grouped, line: string)
    requires lines == g.preamble + Flatten(g.entries) && g.entries == []
    requires LoosePreamble(g.preamble) && KeyOf(line).None?
    requires Flat(line) && (lines != [] ==> !StartsWith(line, "---"))
    ensures Push(g, line).entries == [] && LoosePreamble(Push(g, line).preamble)
    ensures lines + [line] == Push(g, line).preamble + Flatten([])
  {
    hide KeyOf, StartsWith, Flat;
  }

  lemma PushKey(lines: seq<string>, g: Grouped, line: string)
    requires lines == g.preamble + Flatten(g.entries) && forall e <- g.entries :: Loose(e)
    requires Flat(line) && KeyOf(line).Some?
    ensures
      var h := Push(g, line);
      && h.preamble == g.preamble && (forall e <- h.entries :: Loose(e))
      && lines + [line] == h.preamble + Flatten(h.entries)
  {
    hide KeyOf, StartsWith, Flat, Loose, Flatten;
    var e := Entry(KeyOf(line).value, [line]);
    FlattenConcat(g.entries, [e]);
    NewEntry(e, line);
    assert lines + [line] == g.preamble + (Flatten(g.entries) + [line]);
  }

  lemma PushMore(lines: seq<string>, g: Grouped, line: string)
    requires lines == g.preamble + Flatten(g.entries) && forall e <- g.entries :: Loose(e)
    requires Flat(line) && KeyOf(line).None? && g.entries != [] && (lines != [] ==> !StartsWith(line, "---"))
    ensures
      var h := Push(g, line);
      && h.preamble == g.preamble && (forall e <- h.entries :: Loose(e))
      && lines + [line] == h.preamble + Flatten(h.entries)
  {
    hide KeyOf, StartsWith, Flat, Loose, Flatten;
    var n := |g.entries| - 1;
    var before, e := g.entries[..n], g.entries[n];
    FlattenLast(g.entries);
    LooseHasLines(e);
    LongerEntry(e, line);
    var longer := e.(lines := e.lines + [line]);
    assert Push(g, line).entries == before + [longer];
    FlattenConcat(before, [longer]);
    FlattenSingle(longer);
    assert lines + [line] == g.preamble + (Flatten(before) + (e.lines + [line]));
  }

  lemma LooseHasLines(e: Entry)
    requires Loose(e)
    ensures e.lines != []
  {
  }

  lemma FlattenSingle(e: Entry)
    ensures Flatten([e]) == e.lines
  {
  }

  lemma NewEntry(e: Entry, line: string)
    requires KeyOf(line) == Some(e.key) && e.lines == [line] && Flat(line)
    ensures Loose(e) && Flatten([e]) == [line]
  {
  }

  lemma LongerEntry(e: Entry, line: string)
    requires Loose(e) && KeyOf(line).None? && Flat(line)
    requires !StartsWith(line, "---")
    ensures Loose(e.(lines := e.lines + [line]))
  {
    hide KeyOf, StartsWith, Flat;
  }

  /** What splitting yields, of any framed text. */
  lemma SplitIsLoose(s: string)
    requires SplitMarkdown(s).Some?
    ensures
      var d := SplitMarkdown(s).value;
      LoosePreamble(d.preamble) && (forall e <- d.entries :: Loose(e)) && Trimmed(d.body)
  {
    var lines := FrontLines(s);
    forall line | line in lines ensures Flat(line) {
      var k :| 0 <= k < |lines| && lines[k] == line;
      SplitHasNoNewlines(s[OpenLength(s)..FindClose(s, OpenLength(s))], k);
    }
    FrontLinesHaveNoFence(s);
    GroupKeeps(lines);
    TrimIsTrimmed(s[FindClose(s, OpenLength(s)) + CloseLength(s, FindClose(s, OpenLength(s)))..]);
  }

  lemma TrimIsTrimmed(s: string)
    ensures Trimmed(Trim(s))
  {
    var t := TrimStart(s);
    if TrimEnd(t) != "" {
      assert TrimEnd(t)[0] == t[0];
    }
  }

  /**
   * Entries written after a preamble read back exactly. The preamble loses the carriage returns at the ends of its
   * lines; lines of it that thereby turn into keys read back as entries before the others.
   */
  lemma WriteRead(preamble: seq<string>, entries: seq<Entry>, body: string)
    requires LoosePreamble(preamble) && (forall e <- entries :: Framed(e)) && Trimmed(body)
    requires entries != []
    ensures
      var g := Group(Stripped(preamble));
      SplitMarkdown(Frame(preamble + Flatten(entries), body)) == Some(Definition(g.preamble, g.entries + entries, body))
    ensures Stable(preamble) <==> Group(Stripped(preamble)) == Grouped(Stripped(preamble), [])
  {
    hide KeyOf, StartsWith, StripCr;
    EntryLines(entries);
    var lines := preamble + Flatten(entries);
    assert NoFence(lines) by {
      forall k | 1 <= k < |lines| ensures !StartsWith(lines[k], "---") {
        if k >= |preamble| { assert lines[k] in Flatten(entries); }
      }
    }
    assert lines[|lines| - 1] in Flatten(entries);
    CleanIsFlat(Flatten(entries));
    SplitFrame(lines, body);
    assert Stripped(lines) == Stripped(preamble) + Flatten(entries) by { StrippedClean(preamble, Flatten(entries)); }
    GroupFlatten(Stripped(preamble), entries);
    StableIff(preamble);
  }

  lemma CleanIsFlat(lines: seq<string>)
    requires AllClean(lines)
    ensures AllFlat(lines)
  {
  }

  lemma StrippedClean(preamble: seq<string>, lines: seq<string>)
    requires AllClean(lines)
    ensures Stripped(preamble + lines) == Stripped(preamble) + lines
  {
    forall k | 0 <= k < |lines| ensures StripCr(lines[k]) == lines[k] { assert lines[k] in lines; }
  }

  lemma StableIff(preamble: seq<string>)
    ensures Stable(preamble) <==> Group(Stripped(preamble)) == Grouped(Stripped(preamble), [])
  {
    hide KeyOf, StripCr;
    if Stable(preamble) {
      forall line | line in Stripped(preamble) ensures KeyOf(line).None? {
        var k :| 0 <= k < |preamble| && Stripped(preamble)[k] == line;
        assert preamble[k] in preamble;
      }
      GroupPreamble(Stripped(preamble));
    } else {
      var line :| line in preamble && KeyOf(StripCr(line)).Some?;
      var k :| 0 <= k < |preamble| && preamble[k] == line;
      GroupHasEntry(Stripped(preamble), k);
    }
  }

  lemma {:induction false} EntryLines(entries: seq<Entry>)
    requires forall e <- entries :: Framed(e)
    ensures AllClean(Flatten(entries)) && forall line <- Flatten(entries) :: !StartsWith(line, "---")
    ensures entries != [] ==> Flatten(entries) != []
    decreases entries
  {
    hide KeyOf, StartsWith, Clean;
    if entries != [] {
      assert entries[0] in entries;
      EntryLines(entries[1..]);
      KeyLineIsNoFence(entries[0].lines[0]);
    }
  }

  lemma KeyLineIsNoFence(line: string)
    requires KeyOf(line).Some?
    ensures !StartsWith(line, "---")
  {
    assert "---"[0] == '-';
  }
}

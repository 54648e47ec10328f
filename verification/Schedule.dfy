/** Scheduled jobs: cron expressions, due times, and retries (apps/cli/src/schedule.ts). */
module Schedule {
  import opened Basics
  import opened Options
  import opened Splitting
  import opened Text
  import opened Decimals
  import opened CronField

  // ---- cron expressions -----------------------------------------------------------------------------------

  datatype Cron = Cron(
    minute: seq<nat>, hour: seq<nat>, dom: seq<nat>, month: seq<nat>, dow: seq<nat>,
    domRestricted: bool, dowRestricted: bool)

  /** What a local clock shows: months count from 0, days of the week from Sunday. */
  datatype Wall = Wall(year: int, month: nat, date: nat, hours: nat, minutes: nat, day: nat)

  /** `s.split(/\s+/)`. */
  function SplitSpace(s: string): (parts: seq<string>)
    ensures parts != []
  {
    if s == "" then [""]
    else
      var rest := SplitSpace(s[1..]);
      if !IsSpace(s[0]) then [[s[0]] + rest[0]] + rest[1..]
      else if |s| > 1 && IsSpace(s[1]) then rest
      else [""] + rest
  }

  /** A stretch without space, a gap, and the rest: the gap is one cut. */
  lemma {:induction false} SplitSpaceGap(gap: string, rest: string)
    requires gap != "" && IsBlank(gap) && (rest == "" || !IsSpace(rest[0]))
    ensures SplitSpace(gap + rest) == [""] + SplitSpace(rest)
    decreases gap
  {
    hide IsSpace;
    assert gap[0] in gap;
    var s := gap + rest;
    if |gap| == 1 {
      assert s[1..] == rest;
    } else {
      assert gap[1] in gap && s[1..] == gap[1..] + rest;
      forall c | c in gap[1..] ensures IsSpace(c) { assert c in gap; }
      SplitSpaceGap(gap[1..], rest);
    }
  }

  lemma {:induction false} SplitSpaceWord(word: string, rest: string)
    requires (forall c <- word :: !IsSpace(c)) && (rest == "" || IsSpace(rest[0]))
    ensures SplitSpace(word + rest) == [word + SplitSpace(rest)[0]] + SplitSpace(rest)[1..]
    decreases word
  {
    hide IsSpace;
    if word == "" {
      assert word + rest == rest && word + SplitSpace(rest)[0] == SplitSpace(rest)[0];
    } else {
      assert word[0] in word && (word + rest)[1..] == word[1..] + rest;
      SplitSpaceWord(word[1..], rest);
      assert [word[0]] + (word[1..] + SplitSpace(rest)[0]) == word + SplitSpace(rest)[0];
    }
  }

  /** The set of weekdays with both names of Sunday. */
  function Week(raw: seq<nat>): seq<nat> {
    Sorted(set v <- raw :: if v == 7 then 0 else v, 0, 6)
  }

  predicate CoversRange(values: seq<nat>, lo: nat, hi: nat) {
    |values| == hi - lo + 1 && forall k :: 0 <= k < |values| ==> values[k] == lo + k
  }

  /** The meaning of five fields: all of them must be accepted. */
  function CronOf(fields: seq<string>): Option<Cron>
    requires |fields| == 5
  {
    var minute, hour := Field(fields[0], 0, 59), Field(fields[1], 0, 23);
    var dom, month := Field(fields[2], 1, 31), Field(fields[3], 1, 12);
    var dowRaw := Field(fields[4], 0, 7);
    if minute.None? || hour.None? || dom.None? || month.None? || dowRaw.None? then None
    else
      var dow := Week(dowRaw.value);
      Some(Cron(minute.value, hour.value, dom.value, month.value, dow,
                !CoversRange(dom.value, 1, 31), !CoversRange(dow, 0, 6)))
  }

  function ParseCron(spec: string): Option<Cron> {
    var fields := SplitSpace(Trim(spec));
    if |fields| != 5 then None else CronOf(fields)
  }

  /** Fields with a gap after each but the last. */
  function Spaced(fields: seq<string>, gaps: seq<string>): string
    requires fields != [] && |gaps| == |fields| - 1
  {
    if |fields| == 1 then fields[0] else fields[0] + (gaps[0] + Spaced(fields[1..], gaps[1..]))
  }

  ghost predicate Words(fields: seq<string>, gaps: seq<string>) {
    && (forall k :: 0 <= k < |fields| ==> fields[k] != "" && forall c <- fields[k] :: !IsSpace(c))
    && (forall k :: 0 <= k < |gaps| ==> gaps[k] != "" && IsBlank(gaps[k]))
  }

  lemma {:induction false} SpacedIsCut(fields: seq<string>, gaps: seq<string>)
    requires fields != [] && |gaps| == |fields| - 1 && Words(fields, gaps)
    ensures SplitSpace(Spaced(fields, gaps)) == fields
    ensures Spaced(fields, gaps) != "" && Trimmed(Spaced(fields, gaps))
    decreases fields
  {
    hide IsSpace, SplitSpace;
    var first := fields[0];
    assert first[0] in first && first[|first| - 1] in first;
    SplitNothing();
    if |fields| == 1 {
      SplitSpaceWord(first, "");
      assert first + "" == first;
    } else {
      var rest := Spaced(fields[1..], gaps[1..]);
      SpacedIsCut(fields[1..], gaps[1..]);
      SplitSpaceGap(gaps[0], rest);
      assert gaps[0][0] in gaps[0];
      SplitSpaceWord(first, gaps[0] + rest);
      assert first + "" == first;
    }
  }

  lemma SplitNothing()
    ensures SplitSpace("") == [""]
  {
  }

  lemma {:induction false} TrimStartAround(lead: string, s: string)
    requires IsBlank(lead) && s != "" && !IsSpace(s[0])
    ensures TrimStart(lead + s) == s
    decreases lead
  {
    hide IsSpace;
    if lead == "" {
      assert lead + s == s;
    } else {
      assert lead[0] in lead && (lead + s)[1..] == lead[1..] + s;
      forall c | c in lead[1..] ensures IsSpace(c) { assert c in lead; }
      TrimStartAround(lead[1..], s);
    }
  }

  lemma {:induction false} TrimEndAround(s: string, trail: string)
    requires IsBlank(trail) && s != "" && !IsSpace(s[|s| - 1])
    ensures TrimEnd(s + trail) == s
    decreases trail
  {
    hide IsSpace;
    if trail == "" {
      assert s + trail == s;
    } else {
      var n := |trail| - 1;
      assert trail[n] in trail && (s + trail)[..|s| + n] == s + trail[..n];
      forall c | c in trail[..n] ensures IsSpace(c) { assert c in trail; }
      TrimEndAround(s, trail[..n]);
    }
  }

  lemma TrimBoth(lead: string, s: string, trail: string)
    requires IsBlank(lead) && IsBlank(trail) && Trimmed(s) && s != ""
    ensures Trim(lead + (s + trail)) == s
  {
    hide IsSpace;
    assert (s + trail)[0] == s[0];
    TrimStartAround(lead, s + trail);
    TrimEndAround(s, trail);
  }

  /** Fields with any space between and around them are read as these fields; other than five of them are refused. */
  lemma CronText(lead: string, fields: seq<string>, gaps: seq<string>, trail: string)
    requires fields != [] && |gaps| == |fields| - 1 && Words(fields, gaps) && IsBlank(lead) && IsBlank(trail)
    ensures ParseCron(lead + (Spaced(fields, gaps) + trail)) == if |fields| == 5 then CronOf(fields) else None
  {
    hide CronOf, Trimmed, Trim, SplitSpace, Spaced, IsBlank, Words;
    SpacedIsCut(fields, gaps);
    TrimBoth(lead, Spaced(fields, gaps), trail);
  }

  lemma {:induction false} SortedIs(out: set<nat>, v: nat, hi: nat)
    ensures Ascending(Sorted(out, v, hi))
    ensures forall u :: u in Sorted(out, v, hi) <==> u in out && v <= u <= hi
    decreases hi + 1 - v
  {
    if v <= hi {
      SortedIs(out, v + 1, hi);
      var rest := Sorted(out, v + 1, hi);
      forall k | 0 <= k < |rest| ensures v < rest[k] { assert rest[k] in rest; }
    }
  }

  /** Sunday may be written 0 or 7. */
  lemma WeekMeaning(raw: seq<nat>)
    requires forall v <- raw :: v <= 7
    ensures Ascending(Week(raw))
    ensures forall day :: day in Week(raw) <==> (day <= 6 && day in raw) || (day == 0 && 7 in raw)
  {
    var out := set v <- raw :: if v == 7 then 0 else v;
    SortedIs(out, 0, 6);
    if 7 in raw { assert 0 in out; }
    forall day ensures day in Week(raw) <==> (day <= 6 && day in raw) || (day == 0 && 7 in raw) {
      if day <= 6 && day in raw { assert day in out; }
    }
  }

  /** A field covers its range exactly when it allows every value of it: a list can do that as well as `*`. */
  lemma CoversIffAll(values: seq<nat>, lo: nat, hi: nat)
    requires lo <= hi && Ascending(values) && forall v <- values :: lo <= v <= hi
    ensures CoversRange(values, lo, hi) <==> forall v :: lo <= v <= hi ==> v in values
  {
    if CoversRange(values, lo, hi) {
      forall v | lo <= v <= hi ensures v in values { assert values[v - lo] == v; }
    }
    if forall v :: lo <= v <= hi ==> v in values {
      AllThere(values, lo, hi, hi - lo + 1);
    }
  }

  lemma {:induction false} AllThere(values: seq<nat>, lo: nat, hi: nat, n: nat)
    requires lo <= hi && n <= hi - lo + 1
    requires Ascending(values) && (forall v <- values :: lo <= v <= hi) && (forall v :: lo <= v <= hi ==> v in values)
    ensures n <= |values| && forall k :: 0 <= k < n ==> values[k] == lo + k
    ensures n == hi - lo + 1 ==> |values| == n
    decreases n
  {
    if n > 0 {
      AllThere(values, lo, hi, n - 1);
      assert lo + (n - 1) in values;
      var j :| 0 <= j < |values| && values[j] == lo + (n - 1);
      AtLeast(values, lo, j);
      if n == hi - lo + 1 { AtLeast(values, lo, |values| - 1); }
    }
  }

  lemma {:induction false} AtLeast(values: seq<nat>, lo: nat, k: nat)
    requires k < |values| && Ascending(values) && forall v <- values :: lo <= v
    ensures values[k] in values && values[k] >= lo + k
    decreases k
  {
    if k > 0 {
      AtLeast(values, lo, k - 1);
    } else {
      assert values[0] in values;
    }
  }

  predicate CronMatches(c: Cron, w: Wall) {
    if w.minutes !in c.minute || w.hours !in c.hour || w.month + 1 !in c.month then false
    else
      var domOk, dowOk := w.date in c.dom, w.day in c.dow;
      if c.domRestricted && c.dowRestricted then domOk || dowOk else domOk && dowOk
  }

  predicate Fires(spec: string, w: Wall) {
    var c := ParseCron(spec);
    c.Some? && CronMatches(c.value, w)
  }

  /** A job's days: when both fields are restricted either may admit a day; an unrestricted one is no condition. */
  ghost predicate DayAdmitted(c: Cron, w: Wall) {
    match (c.domRestricted, c.dowRestricted)
    case (true, true) => w.date in c.dom || w.day in c.dow
    case (true, false) => w.date in c.dom
    case (false, true) => w.day in c.dow
    case (false, false) => true
  }

  lemma {:induction false} FieldShape(raw: string, lo: nat, hi: nat)
    ensures Field(raw, lo, hi).Some? ==>
      Ascending(Field(raw, lo, hi).value) && forall v <- Field(raw, lo, hi).value :: lo <= v <= hi
  {
    hide Field, PrintField, InField;
    hide ReadItems;
    var read := ReadItems(SplitOn(raw, ','));
    if read.Some? {
      FieldTextIffPrinted(raw, read.value);
      FieldMeaning(read.value, lo, hi);
    } else {
      FieldNone(raw, lo, hi);
    }
  }

  lemma FieldNone(raw: string, lo: nat, hi: nat)
    requires ReadItems(SplitOn(raw, ',')).None?
    ensures Field(raw, lo, hi).None?
  {
  }

  /** The days on which the code fires: the month is always required, and either day field suffices when both limit. */
  lemma DayRule(spec: string, w: Wall)
    requires ParseCron(spec).Some? && 1 <= w.date <= 31 && w.day <= 6
    ensures
      var c := ParseCron(spec).value;
      Fires(spec, w) <==>
      w.minutes in c.minute && w.hours in c.hour && w.month + 1 in c.month && DayAdmitted(c, w)
  {
    hide Field, Week, SplitSpace, Trim;
    var c, fields := ParseCron(spec).value, SplitSpace(Trim(spec));
    FieldShape(fields[2], 1, 31);
    FieldShape(fields[4], 0, 7);
    CoversIffAll(c.dom, 1, 31);
    WeekMeaning(Field(fields[4], 0, 7).value);
    CoversIffAll(c.dow, 0, 6);
  }

  // ---- intervals ------------------------------------------------------------------------------------------

  function UnitMs(unit: char): nat {
    match unit
    case 's' => 1000 case 'S' => 1000
    case 'm' => 60_000 case 'M' => 60_000
    case 'h' => 3_600_000 case 'H' => 3_600_000
    case 'd' => 86_400_000 case 'D' => 86_400_000
    case 'w' => 604_800_000 case 'W' => 604_800_000
    case _ => 0
  }

  /** Seconds, minutes, hours, days and weeks, in small or capital letters. */
  lemma UnitsAre(unit: char)
    ensures UnitMs('s') == 1000 && UnitMs('m') == 60 * UnitMs('s') && UnitMs('h') == 60 * UnitMs('m')
    ensures UnitMs('d') == 24 * UnitMs('h') && UnitMs('w') == 7 * UnitMs('d')
    ensures UnitMs('S') == UnitMs('s') && UnitMs('M') == UnitMs('m') && UnitMs('H') == UnitMs('h')
    ensures UnitMs('D') == UnitMs('d') && UnitMs('W') == UnitMs('w')
    ensures unit !in "smhdwSMHDW" ==> UnitMs(unit) == 0
  {
  }

  /** A count and a unit, with space around either; the count and the milliseconds are exactly representable. */
  function ParseInterval(spec: string): (ms: Option<nat>)
    ensures ms.Some? ==> 0 < ms.value <= MAX_SAFE_INTEGER
  {
    var t := Trim(spec);
    if t == "" || UnitMs(t[|t| - 1]) == 0 then None
    else
      var n, unit := Decimal(TrimEnd(t[..|t| - 1])), UnitMs(t[|t| - 1]);
      if n.None? || n.value == 0 then None
      else
        MulAtLeast(unit, n.value);
        var ms := unit * n.value;
        if ms > MAX_SAFE_INTEGER then None else Some(ms)
  }

  /** The texts of a positive number of milliseconds: a count, a unit, and space before, between and after. */
  ghost predicate IntervalText(spec: string, ms: nat) {
    exists lead: string, digits: string, gap: string, unit: char, trail: string ::
      IntervalParts(spec, ms, lead, digits, gap, unit, trail)
  }

  ghost predicate IntervalParts(
    spec: string, ms: nat, lead: string, digits: string, gap: string, unit: char, trail: string)
  {
    && spec == lead + ((digits + gap + [unit]) + trail)
    && IsBlank(lead) && IsBlank(gap) && IsBlank(trail)
    && Decimal(digits).Some? && Decimal(digits).value > 0 && UnitMs(unit) > 0
    && ms == UnitMs(unit) * Decimal(digits).value && ms <= MAX_SAFE_INTEGER
  }

  lemma DigitsAreNoSpace(s: string)
    requires Decimal(s).Some?
    ensures s != "" && !IsSpace(s[0]) && !IsSpace(s[|s| - 1])
  {
  }

  lemma UnitIsNoSpace(c: char)
    ensures UnitMs(c) > 0 ==> !IsSpace(c)
  {
  }

  lemma IntervalIsRead(
    spec: string, ms: nat, lead: string, digits: string, gap: string, unit: char, trail: string)
    requires IntervalParts(spec, ms, lead, digits, gap, unit, trail)
    ensures ParseInterval(spec) == Some(ms)
  {
    hide Decimal, IsSpace, UnitMs, Trim;
    var t := digits + gap + [unit];
    DigitsAreNoSpace(digits);
    UnitIsNoSpace(unit);
    assert t[0] == digits[0] && t[|t| - 1] == unit && t[..|t| - 1] == digits + gap;
    TrimBoth(lead, t, trail);
    TrimEndAround(digits, gap);
  }

  lemma {:induction false} TrimStartTakes(s: string) returns (lead: string)
    ensures IsBlank(lead) && s == lead + TrimStart(s)
    decreases s
  {
    hide IsSpace, IsBlank;
    if s != "" && IsSpace(s[0]) {
      var more := TrimStartTakes(s[1..]);
      lead := [s[0]] + more;
      BlankMore(s[0], more);
      FirstRest(s, more, TrimStart(s[1..]));
    } else {
      lead := "";
      BlankNothing();
      assert "" + s == s;
    }
  }

  lemma BlankNothing()
    ensures IsBlank("")
  {
  }

  lemma BlankMore(c: char, more: string)
    requires IsSpace(c) && IsBlank(more)
    ensures IsBlank([c] + more)
  {
  }

  lemma FirstRest(s: string, a: string, b: string)
    requires s != "" && s[1..] == a + b
    ensures s == [s[0]] + a + b
  {
    Associate([s[0]], a, b);
  }

  lemma {:induction false} TrimEndTakes(s: string)
    ensures IsBlank(s[|TrimEnd(s)|..]) && s == TrimEnd(s) + s[|TrimEnd(s)|..]
    decreases s
  {
    hide IsSpace;
    if s != "" && IsSpace(s[|s| - 1]) {
      var n := |s| - 1;
      TrimEndTakes(s[..n]);
      assert s[|TrimEnd(s)|..] == s[..n][|TrimEnd(s)|..] + [s[n]];
    }
  }

  /** A text is read as an interval exactly when it is the text of one. */
  lemma IntervalIffText(spec: string, ms: nat)
    ensures ParseInterval(spec) == Some(ms) <==> IntervalText(spec, ms)
  {
    hide Decimal, IsSpace, UnitMs, IntervalParts, IsBlank;
    if IntervalText(spec, ms) {
      var lead: string, digits: string, gap: string, unit: char, trail: string :|
        IntervalParts(spec, ms, lead, digits, gap, unit, trail);
      IntervalIsRead(spec, ms, lead, digits, gap, unit, trail);
    }
    if ParseInterval(spec) == Some(ms) {
      IntervalOf(spec, ms);
    }
  }

  lemma IntervalOf(spec: string, ms: nat)
    requires ParseInterval(spec) == Some(ms)
    ensures IntervalText(spec, ms)
  {
    hide Decimal, IsSpace, UnitMs, IsBlank, TrimStart, TrimEnd;
    var s := TrimStart(spec);
    var t := TrimEnd(s);
    var lead := TrimStartTakes(spec);
    TrimEndTakes(s);
    var trail, n := s[|t|..], |t| - 1;
    var digits := TrimEnd(t[..n]);
    TrimEndTakes(t[..n]);
    var gap := t[..n][|digits|..];
    assert t == digits + gap + [t[n]];
    assert IntervalParts(spec, ms, lead, digits, gap, t[n], trail);
  }

  // ---- jobs -----------------------------------------------------------------------------------------------

  /** A stored time stamp: absent, text that is no date, or an instant in milliseconds. */
  datatype Stamp = Absent | Unreadable | At(ms: int)

  /** A registered job; no failure count and a count of 0 are the same. */
  datatype Job = Job(id: string, schedule: string, enabled: bool, lastRunAt: Stamp, failureCount: nat,
    nextRetryAt: Stamp)

  predicate SameMinute(a: Wall, b: Wall) {
    a.year == b.year && a.month == b.month && a.date == b.date && a.hours == b.hours && a.minutes == b.minutes
  }

  /** Whether a job should run at `now`; `clock` is the local clock. */
  predicate IsDue(job: Job, now: int, clock: int -> Wall) {
    if !job.enabled then false
    else if job.nextRetryAt.At? then now >= job.nextRetryAt.ms
    else
      var interval := ParseInterval(job.schedule);
      if interval.Some? then !job.lastRunAt.At? || now - job.lastRunAt.ms >= interval.value
      else Fires(job.schedule, clock(now)) && (!job.lastRunAt.At? || !SameMinute(clock(now), clock(job.lastRunAt.ms)))
  }

  const MINUTE: nat := 60_000
  const CRON_WINDOW: nat := 366 * 24 * 60 * 60_000

  function FloorMinute(ms: int): (r: int)
    ensures r <= ms < r + MINUTE && r % MINUTE == 0
  {
    ms / MINUTE * MINUTE
  }

  function MaxInt(a: int, b: int): int { if a >= b then a else b }

  predicate FiresAt(job: Job, clock: int -> Wall, t: int) { Fires(job.schedule, clock(t)) }

  /** The next whole minutes after that of `from`, up to 366 days on. */
  function Candidate(from: int, k: nat): int { FloorMinute(from) + MINUTE + k * MINUTE }

  const CANDIDATES: nat := 366 * 24 * 60

  /** `r` is the next eligible tick. */
  ghost predicate IsNextRun(job: Job, from: int, clock: int -> Wall, r: Option<int>) {
    if !job.enabled then r == None
    else if job.nextRetryAt.At? then r == Some(MaxInt(from, job.nextRetryAt.ms))
    else
      var interval := ParseInterval(job.schedule);
      if interval.Some? then
        r == Some(if job.lastRunAt.At? then MaxInt(from, job.lastRunAt.ms + interval.value) else from)
      else if r.Some? then
        exists k :: 0 <= k <= CANDIDATES && r.value == Candidate(from, k) && FiresAt(job, clock, r.value) &&
          forall j :: 0 <= j < k ==> !FiresAt(job, clock, Candidate(from, j))
      else forall j :: 0 <= j <= CANDIDATES ==> !FiresAt(job, clock, Candidate(from, j))
  }

  method NextRunAt(job: Job, from: int, clock: int -> Wall) returns (r: Option<int>)
    ensures IsNextRun(job, from, clock, r)
  {
    hide FiresAt, ParseInterval, FloorMinute;
    if !job.enabled { return None; }
    if job.nextRetryAt.At? { return Some(MaxInt(from, job.nextRetryAt.ms)); }
    var interval := ParseInterval(job.schedule);
    if interval.Some? {
      return Some(if job.lastRunAt.At? then MaxInt(from, job.lastRunAt.ms + interval.value) else from);
    }
    var candidate := FloorMinute(from) + MINUTE;
    var limit := candidate + CRON_WINDOW;
    ghost var k: nat := 0;
    while candidate <= limit
      invariant candidate == Candidate(from, k) && k <= CANDIDATES + 1
      invariant forall j :: 0 <= j < k ==> !FiresAt(job, clock, Candidate(from, j))
      decreases limit - candidate
    {
      if FiresAt(job, clock, candidate) {
        return Some(candidate);
      }
      candidate := candidate + MINUTE;
      k := k + 1;
    }
    return None;
  }

  /**
   * For interval jobs and pending retries, the next run is the first instant from `from` on at which the job is
   * due.
   */
  lemma NextRunIsLeastDue(job: Job, from: int, clock: int -> Wall, r: Option<int>)
    requires job.enabled && (job.nextRetryAt.At? || ParseInterval(job.schedule).Some?)
    requires IsNextRun(job, from, clock, r)
    ensures r.Some? && from <= r.value && IsDue(job, r.value, clock)
    ensures forall t :: from <= t < r.value ==> !IsDue(job, t, clock)
    ensures forall t :: t >= r.value ==> IsDue(job, t, clock)
  {
    hide ParseInterval, Fires;
  }

  /**
   * For cron jobs the next run is the first whole minute after that of `from` at which the expression fires; there is
   * none exactly when it fires at no minute of the window. The job is due then, unless it already ran in what the
   * local clock shows as the same minute.
   */
  lemma NextCronRunIsFirstMatch(job: Job, from: int, clock: int -> Wall, r: Option<int>, t: int)
    requires job.enabled && !job.nextRetryAt.At? && ParseInterval(job.schedule).None? && IsNextRun(job, from, clock, r)
    requires t % MINUTE == 0 && from < t <= FloorMinute(from) + MINUTE + CRON_WINDOW
    ensures Fires(job.schedule, clock(t)) ==> r.Some? && r.value <= t
    ensures r == Some(t) ==>
      && Fires(job.schedule, clock(t))
      && (IsDue(job, t, clock) <==> !job.lastRunAt.At? || !SameMinute(clock(t), clock(job.lastRunAt.ms)))
  {
    hide ParseInterval, Fires;
    var k := WhichCandidate(from, t);
    assert FiresAt(job, clock, Candidate(from, k)) == Fires(job.schedule, clock(t));
  }

  /** Every whole minute of the window is a candidate. */
  lemma WhichCandidate(from: int, t: int) returns (k: nat)
    requires t % MINUTE == 0 && from < t <= FloorMinute(from) + MINUTE + CRON_WINDOW
    ensures k <= CANDIDATES && t == Candidate(from, k)
  {
    var first := FloorMinute(from) + MINUTE;
    assert (t - first) % MINUTE == 0;
    k := (t - first) / MINUTE;
  }

  // ---- retries --------------------------------------------------------------------------------------------

  const MAX_RETRY_BACKOFF_MS: nat := 60 * 60_000
  const MAX_FAILURE_COUNT: nat := 5

  function Pow2(n: nat): (p: nat)
    ensures p > 0
  {
    if n == 0 then 1 else 2 * Pow2(n - 1)
  }

  /** How long to wait after the `k`-th failure in a row. */
  function Delay(k: nat): nat
    requires k > 0
  {
    Min(MAX_RETRY_BACKOFF_MS, 60_000 * Pow2(Min(k - 1, 10)))
  }

  /** The cap on the exponent never shows: it is the cap on the delay that bounds it. */
  lemma DelayIsExponential(k: nat)
    requires k > 0
    ensures Delay(k) == Min(MAX_RETRY_BACKOFF_MS, 60_000 * Pow2(k - 1))
  {
    if k - 1 > 10 {
      PowGrows(10, k - 1);
    }
    assert Pow2(10) == 1024;
  }

  lemma {:induction false} PowGrows(a: nat, b: nat)
    requires a <= b
    ensures Pow2(a) <= Pow2(b)
    decreases b
  {
    if a < b { PowGrows(a, b - 1); }
  }

  /** Records the outcome of an attempt. */
  function MarkRunResult(job: Job, at: int, succeeded: bool): Job {
    if succeeded then job.(failureCount := 0, nextRetryAt := Absent, lastRunAt := At(at))
    else
      var failureCount := job.failureCount + 1;
      if failureCount >= MAX_FAILURE_COUNT then
        job.(nextRetryAt := Absent, lastRunAt := At(at), failureCount := failureCount, enabled := false)
      else job.(lastRunAt := At(at), failureCount := failureCount, nextRetryAt := At(at + Delay(failureCount)))
  }

  /** Enabling starts from a clean slate. */
  function SetEnabled(job: Job, enabled: bool): Job {
    if enabled then job.(failureCount := 0, nextRetryAt := Absent, enabled := true) else job.(enabled := false)
  }

  /** The schedule itself asks for a run: the interval has passed, or a cron time is shown for the first time. */
  predicate Asks(job: Job, t: int, clock: int -> Wall) {
    match ParseInterval(job.schedule)
    case Some(interval) => job.lastRunAt.At? ==> t >= job.lastRunAt.ms + interval
    case None =>
      var w := clock(t);
      && Fires(job.schedule, w)
      && (job.lastRunAt.At? ==>
           var last := clock(job.lastRunAt.ms);
           last.minutes != w.minutes || last.hours != w.hours || last.date != w.date || last.month != w.month ||
           last.year != w.year)
  }

  /** A job that is not retried is due exactly when it is enabled and its schedule asks for it. */
  lemma DueAsScheduled(job: Job, t: int, clock: int -> Wall)
    requires !job.nextRetryAt.At?
    ensures IsDue(job, t, clock) <==> job.enabled && Asks(job, t, clock)
  {
    hide ParseInterval, Fires;
  }

  /** Enabling, whatever the job was: it starts afresh, and is due exactly when its schedule asks for it. */
  lemma EnabledIsFresh(job: Job, t: int, clock: int -> Wall)
    ensures
      var after := SetEnabled(job, true);
      && after.enabled && after.failureCount == 0 && after.nextRetryAt == Absent
      && after.id == job.id && after.schedule == job.schedule && after.lastRunAt == job.lastRunAt
      && (IsDue(after, t, clock) <==> Asks(job, t, clock))
  {
    hide IsDue, Asks, ParseInterval, Fires;
    DueAsScheduled(SetEnabled(job, true), t, clock);
    AsksSame(job, SetEnabled(job, true), t, clock);
  }

  lemma AsksSame(a: Job, b: Job, t: int, clock: int -> Wall)
    requires a.schedule == b.schedule && a.lastRunAt == b.lastRunAt
    ensures Asks(a, t, clock) <==> Asks(b, t, clock)
  {
  }

  /** Disabling changes nothing else, and the job is not due. */
  lemma DisabledIsNotDue(job: Job, t: int, clock: int -> Wall)
    ensures
      var after := SetEnabled(job, false);
      !IsDue(after, t, clock) && after.(enabled := job.enabled) == job
  {
  }

  /** After the `k`-th failure in a row, the job waits out the backoff, or for good. */
  lemma GapAfterFailure(job: Job, at: int, t: int, clock: int -> Wall)
    ensures
      var k, after := job.failureCount + 1, MarkRunResult(job, at, false);
      IsDue(after, t, clock) <==>
      job.enabled && k < MAX_FAILURE_COUNT && t - at >= Min(MAX_RETRY_BACKOFF_MS, 60_000 * Pow2(k - 1))
  {
    hide ParseInterval, Fires;
    DelayIsExponential(job.failureCount + 1);
  }

  /** A success clears the failures, and whatever the outcome the end of the run is noted. */
  lemma ResultIsNoted(job: Job, at: int, succeeded: bool)
    ensures
      var after := MarkRunResult(job, at, succeeded);
      && after.id == job.id && after.schedule == job.schedule && after.lastRunAt == At(at)
      && after.failureCount == (if succeeded then 0 else job.failureCount + 1)
      && after.enabled == (job.enabled && (succeeded || job.failureCount < 4))
      && (succeeded ==> after.nextRetryAt == Absent)
  {
  }

  /** After a success an interval job waits out the interval. */
  lemma GapAfterSuccess(job: Job, at: int, t: int, clock: int -> Wall)
    requires ParseInterval(job.schedule).Some?
    ensures IsDue(MarkRunResult(job, at, true), t, clock) <==>
      job.enabled && t - at >= ParseInterval(job.schedule).value
  {
    hide ParseInterval;
  }

  // ---- whole histories of a job ---------------------------------------------------------------------------

  /** A tick selects a job at an instant; its run ends later; the user enables or disables it at any time. */
  datatype Event = Select(at: int) | Finish(at: int, succeeded: bool) | Enable | Disable

  datatype State = State(job: Job, running: bool)

  predicate May(st: State, e: Event, clock: int -> Wall) {
    match e
    case Select(at) => !st.running && IsDue(st.job, at, clock)
    case Finish(_, _) => st.running
    case Enable => true
    case Disable => true
  }

  /** The user may enable or disable a job at any time; a run may begin only when the job is due and none runs. */
  lemma WhenItMay(st: State, at: int, succeeded: bool, clock: int -> Wall)
    ensures May(st, Enable, clock) && May(st, Disable, clock)
    ensures May(st, Select(at), clock) <==> !st.running && IsDue(st.job, at, clock)
    ensures May(st, Finish(at, succeeded), clock) <==> st.running
  {
  }

  function After(st: State, e: Event): State {
    match e
    case Select(_) => st.(running := true)
    case Finish(at, succeeded) => State(MarkRunResult(st.job, at, succeeded), false)
    case Enable => st.(job := SetEnabled(st.job, true))
    case Disable => st.(job := SetEnabled(st.job, false))
  }

  predicate History(st: State, events: seq<Event>, clock: int -> Wall)
    decreases events
  {
    events == [] || (May(st, events[0], clock) && History(After(st, events[0]), events[1..], clock))
  }

  function Runs(events: seq<Event>): nat {
    if events == [] then 0 else (if events[0].Select? then 1 else 0) + Runs(events[1..])
  }

  predicate NeverEnabled(events: seq<Event>) { forall e <- events :: !e.Enable? }
  predicate NeverSucceeds(events: seq<Event>) { forall e <- events :: e.Finish? ==> !e.succeeded }

  /** How many more runs a job has before it is given up. */
  function Budget(st: State): nat {
    var used := st.job.failureCount + if st.running then 1 else 0;
    if !st.job.enabled then 0
    else if used < MAX_FAILURE_COUNT then MAX_FAILURE_COUNT - used
    else if st.running then 0
    else 1
  }

  /**
   * Between successes and re-enablings a job runs only a bounded number of times: at most five, when it starts
   * afresh.
   */
  lemma {:induction false} RunsAreBounded(st: State, events: seq<Event>, clock: int -> Wall)
    requires History(st, events, clock) && NeverEnabled(events) && NeverSucceeds(events)
    ensures Runs(events) <= Budget(st)
    ensures st.job.failureCount == 0 ==> Runs(events) <= MAX_FAILURE_COUNT
    decreases events
  {
    hide ParseInterval, Fires;
    if events != [] {
      assert events == [events[0]] + events[1..];
      assert !events[0].Enable? && (events[0].Finish? ==> !events[0].succeeded);
      RunsAreBounded(After(st, events[0]), events[1..], clock);
    }
  }

  /** The state after the first `n` events. */
  function StateAfter(st: State, events: seq<Event>, n: nat): State
    requires n <= |events|
    decreases n
  {
    if n == 0 then st else StateAfter(After(st, events[0]), events[1..], n - 1)
  }

  lemma {:induction false} HistoryAfter(st: State, events: seq<Event>, clock: int -> Wall, n: nat)
    requires n <= |events| && History(st, events, clock)
    ensures History(StateAfter(st, events, n), events[n..], clock)
    decreases n
  {
    hide May, After;
    if n > 0 {
      HistoryAfter(After(st, events[0]), events[1..], clock, n - 1);
      assert events[1..][n - 1..] == events[n..];
    }
  }

  /** The failures since the last success or enabling; `before` counts those before all events. */
  function FailuresSince(events: seq<Event>, before: nat): nat {
    if events == [] then before
    else
      var n := |events| - 1;
      match events[n]
      case Enable => 0
      case Finish(_, succeeded) => if succeeded then 0 else FailuresSince(events[..n], before) + 1
      case Select(_) => FailuresSince(events[..n], before)
      case Disable => FailuresSince(events[..n], before)
  }

  /** Whether a job is enabled: the last enabling is more recent than any disabling and any fifth failure in a row. */
  predicate StaysEnabled(events: seq<Event>, enabled: bool, failures: nat) {
    if events == [] then enabled
    else
      var n := |events| - 1;
      match events[n]
      case Enable => true
      case Disable => false
      case Select(_) => StaysEnabled(events[..n], enabled, failures)
      case Finish(_, succeeded) =>
        StaysEnabled(events[..n], enabled, failures) && (succeeded || FailuresSince(events, failures) < 5)
  }

  lemma {:induction false} StateAfterLast(st: State, events: seq<Event>, n: nat)
    requires n < |events|
    ensures StateAfter(st, events, n + 1) == After(StateAfter(st, events, n), events[n])
    decreases n
  {
    hide After;
    if n > 0 { StateAfterLast(After(st, events[0]), events[1..], n - 1); }
  }

  lemma {:induction false} StateOfPrefix(st: State, events: seq<Event>, n: nat, m: nat)
    requires n <= m <= |events|
    ensures StateAfter(st, events[..m], n) == StateAfter(st, events, n)
    decreases n
  {
    hide After;
    if n > 0 {
      assert events[..m][1..] == events[1..][..m - 1];
      StateOfPrefix(After(st, events[0]), events[1..], n - 1, m - 1);
    }
  }

  /** The count that is kept is that of the failures since the last success or enabling; so is what is enabled. */
  lemma {:induction false} CountIsFailures(st: State, events: seq<Event>)
    ensures
      var job := StateAfter(st, events, |events|).job;
      && job.failureCount == FailuresSince(events, st.job.failureCount)
      && job.enabled == StaysEnabled(events, st.job.enabled, st.job.failureCount)
    decreases events
  {
    hide StateAfter;
    if events == [] {
      assert StateAfter(st, events, 0) == st by { NoEvents(st, events); }
    } else {
      var n := |events| - 1;
      StateAfterLast(st, events, n);
      StateOfPrefix(st, events, n, n);
      CountIsFailures(st, events[..n]);
    }
  }

  lemma NoEvents(st: State, events: seq<Event>)
    ensures StateAfter(st, events, 0) == st
  {
  }

  lemma {:induction false} HistoryPrefix(st: State, events: seq<Event>, clock: int -> Wall, m: nat)
    requires m <= |events| && History(st, events, clock)
    ensures History(st, events[..m], clock)
    decreases m
  {
    hide May, After;
    if m > 0 {
      assert events[..m][1..] == events[1..][..m - 1];
      HistoryPrefix(After(st, events[0]), events[1..], clock, m - 1);
    }
  }

  /** Between two enablings a job runs at most five times, unless a run succeeds. */
  lemma RunsBetweenEnablings(st: State, events: seq<Event>, clock: int -> Wall, i: nat, j: nat)
    requires History(st, events, clock) && i < j <= |events| && events[i].Enable?
    requires NeverEnabled(events[i + 1..j]) && NeverSucceeds(events[i + 1..j])
    ensures Runs(events[i + 1..j]) <= 5
  {
    hide May, NeverEnabled, NeverSucceeds, StateAfter;
    var after := StateAfter(st, events, i + 1);
    StateAfterLast(st, events, i);
    HistoryAfter(st, events, clock, i + 1);
    HistoryPrefix(after, events[i + 1..], clock, j - i - 1);
    assert events[i + 1..][..j - i - 1] == events[i + 1..j];
    RunsAreBounded(after, events[i + 1..j], clock);
  }

  /** Without enabling, a job that is not running is selected next only when it is due as it stands. */
  lemma {:induction false} NextSelectIsDue(st: State, events: seq<Event>, clock: int -> Wall, i: nat)
    requires History(st, events, clock) && !st.running && i < |events| && events[i].Select?
    requires forall k :: 0 <= k < i ==> !events[k].Select? && !events[k].Enable?
    ensures IsDue(st.job, events[i].at, clock)
    decreases i
  {
    hide ParseInterval, Fires;
    if i > 0 {
      assert events[0].Disable?;
      NextSelectIsDue(After(st, events[0]), events[1..], clock, i - 1);
    }
  }

  /**
   * In every history: between the end of a run and the next selection, with no enabling in between, lies the backoff
   * after a failure (and there is no next selection after the fifth), and the interval after a success.
   */
  lemma GapsInHistory(st: State, events: seq<Event>, clock: int -> Wall, j: nat, i: nat)
    requires History(st, events, clock) && j < i < |events| && events[j].Finish? && events[i].Select?
    requires forall k :: j < k < i ==> !events[k].Select? && !events[k].Enable?
    ensures
      var job := StateAfter(st, events, j).job;
      var gap := events[i].at - events[j].at;
      && (!events[j].succeeded ==>
           job.failureCount + 1 < MAX_FAILURE_COUNT &&
           gap >= Min(MAX_RETRY_BACKOFF_MS, 60_000 * Pow2(job.failureCount)))
      && (events[j].succeeded && ParseInterval(job.schedule).Some? ==> gap >= ParseInterval(job.schedule).value)
  {
    hide ParseInterval, Fires, IsDue, MarkRunResult, Pow2;
    var before := StateAfter(st, events, j);
    HistoryAfter(st, events, clock, j);
    var rest := events[j..];
    assert rest[0] == events[j] && rest[1..] == events[j + 1..];
    var after := After(before, events[j]);
    assert events[i] == rest[1..][i - j - 1];
    forall k | 0 <= k < i - j - 1 ensures !rest[1..][k].Select? && !rest[1..][k].Enable? {
      assert rest[1..][k] == events[j + 1 + k];
    }
    NextSelectIsDue(after, rest[1..], clock, i - j - 1);
    GapAfterFailure(before.job, events[j].at, events[i].at, clock);
    if ParseInterval(before.job.schedule).Some? {
      GapAfterSuccess(before.job, events[j].at, events[i].at, clock);
    }
  }

  /** A job that is disabled, by the user or by its failures, does not run again until it is enabled. */
  lemma {:induction false} DisabledStaysIdle(st: State, events: seq<Event>, clock: int -> Wall)
    requires History(st, events, clock) && NeverEnabled(events) && !st.job.enabled
    ensures Runs(events) == 0
    decreases events
  {
    if events != [] {
      assert events == [events[0]] + events[1..];
      assert !events[0].Enable?;
      DisabledStaysIdle(After(st, events[0]), events[1..], clock);
    }
  }
}

/** Cutting strings at a character, and joining them again: `split` and `join`. */
module Splitting {

  /** `s.split(sep)`. */
  function SplitOn(s: string, sep: char): (parts: seq<string>)
    ensures parts != []
  {
    if s == "" then [""]
    else
      var rest := SplitOn(s[1..], sep);
      if s[0] == sep then [""] + rest else [[s[0]] + rest[0]] + rest[1..]
  }

  function JoinWith(parts: seq<string>, sep: string): string {
    if parts == [] then "" else if |parts| == 1 then parts[0] else parts[0] + sep + JoinWith(parts[1..], sep)
  }

  predicate Without(s: string, c: char) { c !in s }

  lemma JoinStep(first: string, rest: seq<string>, sep: string)
    requires rest != []
    ensures JoinWith([first] + rest, sep) == first + sep + JoinWith(rest, sep)
  {
    assert ([first] + rest)[1..] == rest;
  }

  lemma JoinLonger(c: char, parts: seq<string>, sep: string)
    requires parts != []
    ensures JoinWith([[c] + parts[0]] + parts[1..], sep) == [c] + JoinWith(parts, sep)
  {
    var longer := [[c] + parts[0]] + parts[1..];
    assert longer[1..] == parts[1..];
  }

  /** Splitting cuts at every separator, and only there. */
  lemma {:induction false} SplitIsExact(s: string, sep: char)
    ensures JoinWith(SplitOn(s, sep), [sep]) == s
    ensures forall part <- SplitOn(s, sep) :: Without(part, sep)
    ensures |SplitOn(s, sep)| == 1 <==> Without(s, sep)
    ensures Without(s, sep) ==> SplitOn(s, sep) == [s]
    decreases s
  {
    if s != "" {
      SplitIsExact(s[1..], sep);
      var rest := SplitOn(s[1..], sep);
      assert s == [s[0]] + s[1..];
      if s[0] == sep {
        JoinStep("", rest, [sep]);
      } else {
        JoinLonger(s[0], rest, [sep]);
        assert rest[0] in rest;
        forall part | part in SplitOn(s, sep) ensures Without(part, sep) {
          assert part == [s[0]] + rest[0] || part in rest;
        }
      }
    }
  }

  lemma {:induction false} SplitFirst(first: string, rest: string, sep: char)
    requires Without(first, sep)
    ensures SplitOn(first + [sep] + rest, sep) == [first] + SplitOn(rest, sep)
    decreases first
  {
    var s := first + [sep] + rest;
    if first == "" {
      assert s[1..] == rest;
    } else {
      assert s[1..] == first[1..] + [sep] + rest;
      SplitFirst(first[1..], rest, sep);
      assert [first[0]] + first[1..] == first;
    }
  }

  /** Joining parts that hold no separator can be undone. */
  lemma {:induction false} SplitJoined(parts: seq<string>, sep: char)
    requires parts != [] && forall part <- parts :: Without(part, sep)
    ensures SplitOn(JoinWith(parts, [sep]), sep) == parts
    decreases parts
  {
    assert parts[0] in parts;
    if |parts| == 1 {
      SplitIsExact(parts[0], sep);
    } else {
      SplitFirst(parts[0], JoinWith(parts[1..], [sep]), sep);
      SplitJoined(parts[1..], sep);
    }
  }
}

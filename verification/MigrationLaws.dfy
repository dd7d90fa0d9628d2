/** Which texts are versions and which versions a migration joins, in characters, digits and numbers. */
module MigrationLaws {
  import opened Common
  import opened Versions
  import opened EvolutionGraphs
  import opened Migrations
  import opened MigrationEngines

  // Reading

  /** The pieces with a separator between any two. */
  ghost function Join(parts: seq<string>, sep: char): string
    requires parts != []
  {
    var n := |parts| - 1;
    if n == 0 then parts[0] else Join(parts[..n], sep) + [sep] + parts[n]
  }

  lemma {:induction false} JoinLonger(parts: seq<string>, sep: char, last: string)
    requires parts != []
    ensures Join(parts + [last], sep) == Join(parts, sep) + [sep] + last
  {
    assert (parts + [last])[..|parts|] == parts;
  }

  lemma {:induction false} JoinLastGrows(parts: seq<string>, sep: char, c: char)
    requires parts != []
    ensures var n := |parts| - 1;
      Join(parts[..n] + [parts[n] + [c]], sep) == Join(parts, sep) + [c]
  {
    var n := |parts| - 1;
    var longer := parts[..n] + [parts[n] + [c]];
    if n > 0 {
      JoinLonger(parts[..n], sep, parts[n] + [c]);
      assert longer[..n] == parts[..n];
    }
  }

  lemma {:induction false} SplitJoins(s: string, sep: char)
    ensures Join(Split(s, sep), sep) == s
  {
    if s != "" {
      var n := |s| - 1;
      var parts := Split(s[..n], sep);
      SplitJoins(s[..n], sep);
      JoinLonger(parts, sep, "");
      JoinLastGrows(parts, sep, s[n]);
      assert s == s[..n] + [s[n]];
    }
  }

  /** Splitting loses nothing, leaves no separator in a piece, and makes one piece more than there are separators. */
  lemma {:induction false} SplitMeans(s: string, sep: char)
    ensures Join(Split(s, sep), sep) == s
    ensures forall part :: part in Split(s, sep) ==> sep !in part
    ensures |Split(s, sep)| == multiset(s)[sep] + 1
  {
    SplitJoins(s, sep);
    SplitCounts(s, sep);
  }

  lemma {:induction false} SplitCounts(s: string, sep: char)
    ensures forall i :: 0 <= i < |Split(s, sep)| ==> sep !in Split(s, sep)[i]
    ensures |Split(s, sep)| == multiset(s)[sep] + 1
  {
    if s != "" {
      var n := |s| - 1;
      SplitCounts(s[..n], sep);
      assert s == s[..n] + [s[n]];
      assert multiset(s) == multiset(s[..n]) + multiset{s[n]};
    }
  }

  ghost predicate AllDigits(s: string) {
    s != "" && forall i :: 0 <= i < |s| ==> '0' <= s[i] <= '9'
  }

  /** The number that digits stand for, read from the left. */
  ghost function Number(s: string, before: int): int
    requires s == "" || AllDigits(s)
    decreases |s|
  {
    if s == "" then before else Number(s[1..], 10 * before + (s[0] as int - '0' as int))
  }

  lemma {:induction false} DigitsGrow(s: string, c: char)
    requires (s == "" || AllDigits(s)) && '0' <= c <= '9'
    ensures AllDigits(s + [c])
    ensures s != "" ==> (s[1..] == "" || AllDigits(s[1..])) && (s + [c])[0] == s[0] && (s + [c])[1..] == s[1..] + [c]
  {
  }

  lemma {:induction false} NumberOfSum(s: string, c: char, before: int)
    requires (s == "" || AllDigits(s)) && '0' <= c <= '9'
    ensures AllDigits(s + [c])
    ensures Number(s + [c], before) == 10 * Number(s, before) + (c as int - '0' as int)
    decreases |s|
  {
    DigitsGrow(s, c);
    if s == "" {
      OneDigit(s + [c], before);
    } else {
      var next := 10 * before + (s[0] as int - '0' as int);
      NumberOfSum(s[1..], c, next);
      assert Number(s, before) == Number(s[1..], next);
      assert Number(s + [c], before) == Number(s[1..] + [c], next);
    }
  }

  lemma {:induction false} OneDigit(s: string, before: int)
    requires AllDigits(s) && |s| == 1
    ensures Number(s, before) == 10 * before + (s[0] as int - '0' as int)
  {
    assert s[1..] == "";
  }

  /** Digits read as the number they stand for. */
  lemma {:induction false} DigitsAreRead(s: string)
    requires AllDigits(s)
    ensures ParseDigits(s) == Some(Number(s, 0)) && ParseInt(s) == Some(Number(s, 0))
  {
    DigitsParse(s);
    assert TrimLeft(s) == s && TrimRight(s) == s;
  }

  lemma {:induction false} DigitsParse(s: string)
    requires AllDigits(s)
    ensures ParseDigits(s) == Some(Number(s, 0))
  {
    var n := |s| - 1;
    assert s == s[..n] + [s[n]];
    NumberOfSum(s[..n], s[n], 0);
    if n > 0 {
      DigitsParse(s[..n]);
    }
  }

  /** A sign in front counts, and one underscore between digits does not. */
  lemma {:induction false} SignsAndUnderscores(a: string, b: string)
    requires AllDigits(a) && AllDigits(b)
    ensures ParseInt("-" + a) == Some(-Number(a, 0)) && ParseInt("+" + a) == Some(Number(a, 0))
    ensures AllDigits(a + b) && ParseDigits(a + "_" + b) == Some(Number(a + b, 0))
  {
    DigitsParse(a);
    SignIsRead("-" + a);
    SignIsRead("+" + a);
    UnderscoreIsSkipped(a, b);
  }

  lemma {:induction false} SignIsRead(s: string)
    requires |s| > 1 && (s[0] == '-' || s[0] == '+') && AllDigits(s[1..])
    ensures ParseInt(s) == Some(if s[0] == '-' then -Number(s[1..], 0) else Number(s[1..], 0))
  {
    DigitsParse(s[1..]);
    assert s[|s| - 1] == s[1..][|s| - 2];
    assert TrimLeft(s) == s && TrimRight(s) == s;
  }

  lemma {:induction false} UnderscoreIsSkipped(a: string, b: string)
    requires AllDigits(a) && AllDigits(b)
    ensures AllDigits(a + b) && ParseDigits(a + "_" + b) == Some(Number(a + b, 0))
  {
    var n := |b| - 1;
    NumberOfSum(a + b[..n], b[n], 0);
    assert a + b == (a + b[..n]) + [b[n]];
    LastOfJoined(a, b);
    if n == 0 {
      DigitsParse(a);
      assert a + b[..n] == a;
    } else {
      UnderscoreIsSkipped(a, b[..n]);
    }
  }

  lemma {:induction false} LastOfJoined(a: string, b: string)
    requires AllDigits(a) && AllDigits(b)
    ensures var s, n := a + "_" + b, |b| - 1;
      && s[|s| - 1] == b[n]
      && (n == 0 ==> s[|s| - 2] == '_' && s[..|s| - 2] == a)
      && (n > 0 ==> s[|s| - 2] != '_' && s[..|s| - 1] == a + "_" + b[..n] && AllDigits(b[..n]))
  {
  }

  /** Nothing but digits and single underscores between them reads as a number. */
  lemma {:induction false} OnlyDigitsRead(s: string)
    requires ParseDigits(s).Some?
    ensures s != "" && '0' <= s[0] <= '9' && '0' <= s[|s| - 1] <= '9'
    ensures forall i :: 0 <= i < |s| ==> '0' <= s[i] <= '9' || s[i] == '_'
    ensures forall i :: 0 < i < |s| && s[i] == '_' ==> s[i - 1] != '_'
  {
    var n := |s| - 1;
    if n > 0 {
      OnlyDigitsRead(if s[n - 1] == '_' then s[..n - 1] else s[..n]);
    }
  }

  lemma {:induction false} TrimLeftOnce(c: char, s: string)
    requires IsSpace(c)
    ensures TrimLeft([c] + s) == TrimLeft(s)
  {
    assert ([c] + s)[1..] == s;
  }

  /** Blanks around a number do not matter. */
  lemma {:induction false} BlankInFront(c: char, s: string)
    requires c == ' ' || c == '\t' || c == '\n' || c == '\r'
    ensures ParseInt([c] + s) == ParseInt(s)
  {
    TrimLeftOnce(c, s);
  }

  /** A version has exactly two dots, and a number in each of the three pieces. */
  lemma {:induction false} VersionMeans(v: Version)
    ensures Parse(v).Some? <==>
      multiset(v.text)['.'] == 2 && forall part :: part in Split(v.text, '.') ==> ParseInt(part).Some?
  {
    SplitMeans(v.text, '.');
    ThreeNumbers(Split(v.text, '.'));
  }

  lemma {:induction false} ThreeNumbers(parts: seq<string>)
    ensures |parts| == 3 ==>
      ((forall part :: part in parts ==> ParseInt(part).Some?) <==>
         ParseInt(parts[0]).Some? && ParseInt(parts[1]).Some? && ParseInt(parts[2]).Some?)
  {
  }

  /** Three pieces of digits are the version with these numbers. */
  lemma {:induction false} TripleIsRead(a: string, b: string, c: string)
    requires AllDigits(a) && AllDigits(b) && AllDigits(c)
    ensures Parse(Version(a + "." + b + "." + c)) == Some(Triple(Number(a, 0), Number(b, 0), Number(c, 0)))
  {
    SplitTriple(a, b, c);
    DigitsAreRead(a);
    DigitsAreRead(b);
    DigitsAreRead(c);
  }

  /** Two pieces of digits are no version, but the lenient reading takes them for the first of their minor version;
      a text without a dot it takes for 0.0.0. */
  lemma {:induction false} LenientReading(a: string, b: string)
    requires AllDigits(a) && AllDigits(b)
    ensures Parse(Version(a + "." + b)) == None && Parse(Version(a)) == None
    ensures ParseLeniently(Version(a + "." + b)) == Triple(Number(a, 0), Number(b, 0), 0)
    ensures ParseLeniently(Version(a)) == Triple(0, 0, 0)
  {
    SplitAfterSeparator(a, b, '.');
    SplitPlain(a, '.');
    assert a + "." + b == a + ['.'] + b;
    DigitsAreRead(a);
    DigitsAreRead(b);
  }

  // Compatibility

  /** Compatible means the same major version and a minor version that is equal or one higher. */
  lemma {:induction false} CompatibleMeans(from: Version, to: Version)
    ensures IsBackwardCompatible(from, to).Err? <==> Parse(from) == None || Parse(to) == None
    ensures IsBackwardCompatible(from, to) == Ok(true) <==>
      && Parse(from).Some? && Parse(to).Some?
      && Parse(from).value.major == Parse(to).value.major
      && (Parse(to).value.minor == Parse(from).value.minor || Parse(to).value.minor == Parse(from).value.minor + 1)
  {
  }

  // Plans

  /** A hop between two versions that can be read: the same major version, minor versions at most one apart. */
  ghost predicate Near(parent: Version, child: Version) {
    && Parse(parent).Some? && Parse(child).Some?
    && Parse(parent).value.major == Parse(child).value.major
    && -1 <= Parse(child).value.minor - Parse(parent).value.minor <= 1
  }

  /** A line of versions, each above its first parent and near to it. */
  ghost predicate IsHopPath(g: Registry, line: seq<Version>) {
    forall i {:trigger line[i]} :: 0 <= i < |line| - 1 ==>
      && line[i] in g.values && g.values[line[i]].parents != []
      && g.values[line[i]].parents[0] == line[i + 1] && Near(line[i + 1], line[i])
  }

  lemma {:induction false} PathTail(g: Registry, line: seq<Version>)
    requires |line| >= 2 && IsHopPath(g, line)
    ensures IsHopPath(g, line[1..])
  {
    var tail := line[1..];
    forall i | 0 <= i < |tail| - 1
      ensures tail[i] in g.values && g.values[tail[i]].parents != []
      ensures g.values[tail[i]].parents[0] == tail[i + 1] && Near(tail[i + 1], tail[i])
    {
      assert tail[i] == line[i + 1];
    }
  }

  /** Such a line leads down to an ancestor, along hops that are allowed. */
  lemma {:induction false} PathClimbs(g: Registry, line: seq<Version>)
    requires ParentsFirst(g) && |line| >= 2 && IsHopPath(g, line)
    ensures line[|line| - 1] in Ancestors(g, line[0]) && Before(g, line[|line| - 1], line[0])
    ensures Segment(g, line[0], line[|line| - 1]) == line && AllHopsAllowed(line)
  {
    var v, p, from := line[0], line[1], line[|line| - 1];
    var rest := line[1..];
    FirstParentBefore(g, v);
    PathTail(g, line);
    assert Near(p, v) && line == [v] + rest;
    if |line| > 2 {
      PathClimbs(g, rest);
    }
    SegmentGrows(g, v, from);
    HopsGrow(v, rest);
  }

  lemma {:induction false} SegmentIsPath(g: Registry, v: Version, from: Version)
    requires ParentsFirst(g) && v in g.values && (v == from || from in Ancestors(g, v))
    requires AllHopsAllowed(Segment(g, v, from))
    ensures var line := Segment(g, v, from);
      IsHopPath(g, line) && line != [] && line[0] == v && line[|line| - 1] == from
    decreases if v in g.keys then IndexOf(g.keys, v) else 0
  {
    if v != from {
      SegmentGrows(g, v, from);
      FirstParentBefore(g, v);
      var p := g.values[v].parents[0];
      var rest := Segment(g, p, from);
      HopsGrow(v, rest);
      SegmentIsPath(g, p, from);
      PathGrows(g, v, rest);
    }
  }

  lemma {:induction false} PathGrows(g: Registry, v: Version, rest: seq<Version>)
    requires rest != [] && IsHopPath(g, rest) && v in g.values && g.values[v].parents != []
    requires g.values[v].parents[0] == rest[0] && HopAllowed(rest[0], v)
    ensures IsHopPath(g, [v] + rest)
  {
    var line := [v] + rest;
    forall i | 0 <= i < |line| - 1
      ensures line[i] in g.values && g.values[line[i]].parents != []
      ensures g.values[line[i]].parents[0] == line[i + 1] && Near(line[i + 1], line[i])
    {
      if i > 0 {
        assert line[i] == rest[i - 1] && line[i + 1] == rest[i];
      }
    }
  }

  /** Two versions are joined by a plan exactly if such a line leads from the later one down to the earlier one. */
  lemma {:induction false} SupportedMeans(g: Registry, from: Version, to: Version)
    requires ParentsFirst(g)
    ensures Supported(g, from, to) <==>
      exists line: seq<Version> :: |line| >= 2 && line[0] == to && line[|line| - 1] == from && IsHopPath(g, line)
  {
    SupportedIff(g, from, to);
    if Supported(g, from, to) {
      assert to in g.values;
      SegmentIsPath(g, to, from);
      var line := Segment(g, to, from);
      assert |line| >= 2;
    }
    forall line: seq<Version> |
      |line| >= 2 && line[0] == to && line[|line| - 1] == from && IsHopPath(g, line)
      ensures Supported(g, from, to)
    {
      PathClimbs(g, line);
    }
  }

  /** The steps of the plan are the hops of the line, from its lower end up. */
  lemma {:induction false} StepsAreHops(g: Registry, line: seq<Version>)
    requires ParentsFirst(g) && |line| >= 2 && IsHopPath(g, line)
    ensures Supported(g, line[|line| - 1], line[0])
    ensures var steps := Planned(g, line[|line| - 1], line[0]).value.steps;
      && |steps| == |line| - 1
      && forall i {:trigger steps[i]} :: 0 <= i < |steps| ==>
           steps[i].from == line[|line| - 1 - i] && steps[i].to == line[|line| - 2 - i]
  {
    PathClimbs(g, line);
    SupportedIff(g, line[|line| - 1], line[0]);
  }

  /** A version and its first parent with the same minor version are joined by one step, in spite of no difference
      in numbers. */
  lemma {:induction false} EqualMinorsAreJoined(g: Registry, line: seq<Version>, t: Triple)
    requires ParentsFirst(g) && |line| == 2 && line[0] in g.values && g.values[line[0]].parents != []
    requires g.values[line[0]].parents[0] == line[1]
    requires Parse(line[0]) == Some(t) && Parse(line[1]) == Some(t)
    ensures Supported(g, line[1], line[0]) && |Planned(g, line[1], line[0]).value.steps| == 1
  {
    StepsAreHops(g, line);
  }

  // Transformers

  /** A trace is refused for the first step of the plan without a transformer. */
  lemma {:induction false} FirstMissingIs(registry: Transformers, steps: seq<Step>, k: nat)
    requires k < |steps| && steps[k] !in registry && forall i :: 0 <= i < k ==> steps[i] in registry
    ensures FirstMissing(registry, steps) == Some(steps[k])
    decreases k
  {
    if k > 0 {
      FirstMissingIs(registry, steps[1..], k - 1);
    }
  }
}

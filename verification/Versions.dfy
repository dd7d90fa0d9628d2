/** Version texts, how they are read, and which of them count as compatible. */
module Versions {
  import opened Common

  datatype Version = Version(text: string)

  datatype Triple = Triple(major: int, minor: int, patch: int)

  /** The pieces between separators; always at least one. */
  function Split(s: string, sep: char): (parts: seq<string>)
    ensures |parts| >= 1
  {
    if s == "" then [""]
    else
      var n := |s| - 1;
      var parts := Split(s[..n], sep);
      if s[n] == sep then parts + [""]
      else parts[..|parts| - 1] + [parts[|parts| - 1] + [s[n]]]
  }

  predicate IsDigit(c: char) {
    '0' <= c <= '9'
  }

  predicate IsSpace(c: char) {
    c in {' ', '\t', '\n', '\r', '\U{0B}', '\U{0C}'}
  }

  /** Decimal digits, with single underscores allowed between them. */
  function ParseDigits(s: string): Option<nat> {
    if s == "" || !IsDigit(s[|s| - 1]) then None
    else
      var n := |s| - 1;
      var d := (s[n] - '0') as nat;
      if n == 0 then Some(d)
      else
        var front := if s[n - 1] == '_' then s[..n - 1] else s[..n];
        match ParseDigits(front)
        case Some(m) => Some(10 * m + d)
        case None => None
  }

  function TrimLeft(s: string): string {
    if s != "" && IsSpace(s[0]) then TrimLeft(s[1..]) else s
  }

  function TrimRight(s: string): string {
    if s != "" && IsSpace(s[|s| - 1]) then TrimRight(s[..|s| - 1]) else s
  }

  function ParseInt(text: string): Option<int> {
    var s := TrimRight(TrimLeft(text));
    if s != "" && (s[0] == '-' || s[0] == '+') then
      match ParseDigits(s[1..])
      case Some(n) => var k: int := n; Some(if s[0] == '-' then -k else k)
      case None => None
    else
      match ParseDigits(s)
      case Some(n) => Some(n)
      case None => None
  }

  /** Exactly three numbers; anything else is an error. */
  function Parse(v: Version): Option<Triple> {
    var parts := Split(v.text, '.');
    if |parts| != 3 then None
    else
      var a, b, c := ParseInt(parts[0]), ParseInt(parts[1]), ParseInt(parts[2]);
      if a.Some? && b.Some? && c.Some? then Some(Triple(a.value, b.value, c.value)) else None
  }

  /** Two numbers, and a third if there are three pieces or more; anything else reads as zero. */
  function ParseLeniently(v: Version): Triple {
    var parts := Split(v.text, '.');
    if |parts| < 2 then Triple(0, 0, 0)
    else
      var a, b := ParseInt(parts[0]), ParseInt(parts[1]);
      var c := if |parts| > 2 then ParseInt(parts[2]) else Some(0);
      if a.Some? && b.Some? && c.Some? then Triple(a.value, b.value, c.value) else Triple(0, 0, 0)
  }

  lemma {:induction false} StrictIsLenient(v: Version)
    requires Parse(v).Some?
    ensures ParseLeniently(v) == Parse(v).value
  {
  }

  const MAX_SUPPORTED_DELTA := 1

  function Abs(n: int): nat {
    if n < 0 then -n else n
  }

  /** Raises when either text cannot be read. */
  function IsBackwardCompatible(from: Version, to: Version): Result<bool, Version> {
    if Parse(from) == None then Err(from)
    else if Parse(to) == None then Err(to)
    else
      var f, t := Parse(from).value, Parse(to).value;
      Ok(f.major == t.major && t.minor >= f.minor && Abs(t.minor - f.minor) <= MAX_SUPPORTED_DELTA)
  }

  // Every triple of natural numbers has a text that reads back as that triple.

  function Digits(n: nat): (s: string)
    ensures s != "" && forall i :: 0 <= i < |s| ==> IsDigit(s[i])
  {
    var last := [(n % 10) as char + '0'];
    if n < 10 then last else Digits(n / 10) + last
  }

  function Render(t: Triple): Version
    requires 0 <= t.major && 0 <= t.minor && 0 <= t.patch
  {
    Version(Digits(t.major) + "." + Digits(t.minor) + "." + Digits(t.patch))
  }

  lemma {:induction false} DigitsReadBack(n: nat)
    ensures ParseDigits(Digits(n)) == Some(n)
  {
    var s := Digits(n);
    if n >= 10 {
      DigitsReadBack(n / 10);
      assert s[..|s| - 1] == Digits(n / 10);
      assert s[|s| - 2] == Digits(n / 10)[|s| - 2];
    }
  }

  lemma {:induction false} NumberReadsBack(n: nat)
    ensures ParseInt(Digits(n)) == Some(n)
  {
    var s := Digits(n);
    DigitsReadBack(n);
    assert IsDigit(s[0]) && IsDigit(s[|s| - 1]);
    assert TrimLeft(s) == s && TrimRight(s) == s;
  }

  lemma {:induction false} SplitAfterSeparator(a: string, b: string, sep: char)
    requires sep !in b
    ensures Split(a + [sep] + b, sep) == Split(a, sep) + [b]
  {
    var s := a + [sep] + b;
    if b == "" {
      assert s[..|s| - 1] == a;
    } else {
      var n := |b| - 1;
      assert b[n] in b;
      SplitAfterSeparator(a, b[..n], sep);
      assert s[..|s| - 1] == a + [sep] + b[..n];
      assert b[..n] + [b[n]] == b;
    }
  }

  lemma {:induction false} SplitPlain(s: string, sep: char)
    requires sep !in s
    ensures Split(s, sep) == [s]
  {
    if s != "" {
      var n := |s| - 1;
      assert s[n] in s;
      SplitPlain(s[..n], sep);
      assert s[..n] + [s[n]] == s;
    }
  }

  lemma {:induction false} SplitTriple(a: string, b: string, c: string)
    requires '.' !in a && '.' !in b && '.' !in c
    ensures Split(a + "." + b + "." + c, '.') == [a, b, c]
  {
    SplitPlain(a, '.');
    SplitAfterSeparator(a, b, '.');
    SplitAfterSeparator(a + "." + b, c, '.');
    assert a + "." + b + "." + c == (a + "." + b) + ['.'] + c;
  }

  lemma {:induction false} RenderedReadsBack(t: Triple)
    requires 0 <= t.major && 0 <= t.minor && 0 <= t.patch
    ensures Parse(Render(t)) == Some(t)
  {
    SplitTriple(Digits(t.major), Digits(t.minor), Digits(t.patch));
    NumberReadsBack(t.major);
    NumberReadsBack(t.minor);
    NumberReadsBack(t.patch);
  }

  /** A leading zero makes no difference to the number. */
  lemma {:induction false} LeadingZero(d: char)
    requires IsDigit(d)
    ensures ParseInt([d]) == Some((d - '0') as int) && ParseInt(['0', d]) == Some((d - '0') as int)
  {
    var one, two := [d], ['0', d];
    assert TrimLeft(one) == one && TrimRight(one) == one;
    assert TrimLeft(two) == two && TrimRight(two) == two;
    assert two[..1] == ['0'];
    assert ParseDigits(['0']) == Some(0);
  }

  /** One version can be spelled in many ways. */
  lemma {:induction false} SpellingsOfOne()
    ensures Parse(Version("1.0.0")) == Parse(Version("1.0.00")) == Parse(Version("01.0.0")) == Some(Triple(1, 0, 0))
  {
    LeadingZero('0');
    LeadingZero('1');
    SplitTriple("1", "0", "0");
    SplitTriple("1", "0", "00");
    SplitTriple("01", "0", "0");
    assert "1" + "." + "0" + "." + "0" == "1.0.0";
    assert "1" + "." + "0" + "." + "00" == "1.0.00";
    assert "01" + "." + "0" + "." + "0" == "01.0.0";
    assert ['1'] == "1" && ['0'] == "0" && ['0', '1'] == "01" && ['0', '0'] == "00";
  }
}

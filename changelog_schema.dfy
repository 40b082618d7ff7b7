/** The shape rules of `CHANGELOG.toml`: a list of versions, each with a version
    string, a date that starts with `YYYY-MM-DD`, a summary, and optional lists of
    added, changed and fixed items. JSON/TOML values of the wrong primitive type
    are excluded by the Dafny types themselves. */
module ChangelogSchema {
  import opened Wrappers

  datatype Version = Version(
    version: string,
    date: string,
    summary: string,
    added: Option<seq<string>>,
    changed: Option<seq<string>>,
    fixed: Option<seq<string>>)

  datatype Changelog = Changelog(versions: seq<Version>)

  /** `\d` of an ECMAScript regular expression without the `u` flag: an ASCII digit. */
  predicate IsDigit(c: char)
  {
    '0' <= c <= '9'
  }

  /** The test of `/^\d{4}-\d{2}-\d{2}/`: the first ten characters are four digits,
      a hyphen, two digits, a hyphen and two digits; anything may follow. */
  predicate HasDatePrefix(s: string)
  {
    && |s| >= 10
    && IsDigit(s[0]) && IsDigit(s[1]) && IsDigit(s[2]) && IsDigit(s[3])
    && s[4] == '-'
    && IsDigit(s[5]) && IsDigit(s[6])
    && s[7] == '-'
    && IsDigit(s[8]) && IsDigit(s[9])
  }

  /** One element of a regular expression made of single-character atoms. */
  datatype Atom = Digit | Char(c: char)

  predicate AtomMatches(a: Atom, c: char)
  {
    match a
    case Digit => IsDigit(c)
    case Char(x) => c == x
  }

  /** The atoms of `\d{4}-\d{2}-\d{2}`, with every repetition spelled out. */
  const DatePattern: seq<Atom> :=
    [Digit, Digit, Digit, Digit, Char('-'), Digit, Digit, Char('-'), Digit, Digit]

  /** A pattern anchored with `^` and not with `$` matches when it matches a prefix. */
  predicate MatchesPrefix(pattern: seq<Atom>, s: string)
    decreases |pattern|
  {
    if pattern == [] then true
    else |s| > 0 && AtomMatches(pattern[0], s[0]) && MatchesPrefix(pattern[1..], s[1..])
  }

  lemma {:induction false} MatchesPrefixAt(pattern: seq<Atom>, s: string)
    ensures MatchesPrefix(pattern, s) <==>
      |s| >= |pattern| && forall i :: 0 <= i < |pattern| ==> AtomMatches(pattern[i], s[i])
    decreases |pattern|
  {
    if pattern != [] && |s| > 0 {
      MatchesPrefixAt(pattern[1..], s[1..]);
      if |s| >= |pattern| {
        assert forall i :: 1 <= i < |pattern| ==> pattern[1..][i - 1] == pattern[i] && s[1..][i - 1] == s[i];
      }
    }
  }

  /** The character test is that regular expression: both say the same of every string. */
  lemma DatePrefixIsRegex(s: string)
    ensures HasDatePrefix(s) <==> MatchesPrefix(DatePattern, s)
  {
    MatchesPrefixAt(DatePattern, s);
    if |s| >= 10 && MatchesPrefix(DatePattern, s) {
      assert AtomMatches(DatePattern[4], s[4]) && AtomMatches(DatePattern[7], s[7]);
    }
  }

  /** Only the first ten characters decide, and a string shorter than ten
      characters is rejected. */
  lemma DatePrefixOnlyLooksAtStart(s: string)
    ensures |s| >= 10 ==> (HasDatePrefix(s) <==> HasDatePrefix(s[..10]))
    ensures |s| < 10 ==> !HasDatePrefix(s)
  {
  }

  /** Text after a valid prefix is accepted. */
  lemma DatePrefixExtends(s: string, tail: string)
    requires HasDatePrefix(s)
    ensures HasDatePrefix(s + tail)
  {
  }

  /** A date with a time after it is accepted; a date with a one-digit day is not.
      The strings are fixed by `requires` rather than written into the contract,
      which keeps the solver from unfolding the functions on literal strings. */
  lemma DatePrefixExamples(withTime: string, shortDay: string)
    requires withTime == "2024-01-02T10:00" && shortDay == "2024-01-2"
    ensures HasDatePrefix(withTime)
    ensures !HasDatePrefix(shortDay)
  {
  }

  /** Any four, two and two digits joined by hyphens, followed by anything, is accepted. */
  lemma DateOfDigits(y: string, m: string, d: string, rest: string)
    requires |y| == 4 && |m| == 2 && |d| == 2
    requires forall i :: 0 <= i < |y| ==> IsDigit(y[i])
    requires forall i :: 0 <= i < |m| ==> IsDigit(m[i])
    requires forall i :: 0 <= i < |d| ==> IsDigit(d[i])
    ensures HasDatePrefix(y + "-" + m + "-" + d + rest)
  {
    var s := y + "-" + m + "-" + d + rest;
    assert s[0] == y[0] && s[1] == y[1] && s[2] == y[2] && s[3] == y[3];
    assert s[5] == m[0] && s[6] == m[1] && s[8] == d[0] && s[9] == d[1];
  }

  /** `VersionSchema`: the date rule is the only rule left once the field types hold. */
  predicate ValidVersion(v: Version)
  {
    HasDatePrefix(v.date)
  }

  /** `ChangelogSchema`: every version is valid. */
  predicate ValidChangelog(c: Changelog)
  {
    forall i :: 0 <= i < |c.versions| ==> ValidVersion(c.versions[i])
  }

  /** `parse(ChangelogSchema, data)`: the data when valid, a validation failure otherwise. */
  function ParseChangelog(c: Changelog): (r: Option<Changelog>)
    ensures r.Some? <==> forall v :: v in c.versions ==> HasDatePrefix(v.date)
    ensures r.Some? ==> r.value == c
  {
    if ValidChangelog(c) then Some(c) else None
  }

  /** A changelog of two parts is valid exactly when both parts are; the empty list
      is valid. */
  lemma ValidChangelogAppend(a: seq<Version>, b: seq<Version>)
    ensures ValidChangelog(Changelog(a + b)) <==> ValidChangelog(Changelog(a)) && ValidChangelog(Changelog(b))
    ensures ValidChangelog(Changelog([]))
  {
    if ValidChangelog(Changelog(a)) && ValidChangelog(Changelog(b)) {
      forall i | 0 <= i < |a + b| ensures ValidVersion((a + b)[i]) {
        if i >= |a| { assert (a + b)[i] == b[i - |a|]; }
      }
    }
    if ValidChangelog(Changelog(a + b)) {
      forall i | 0 <= i < |a| ensures ValidVersion(a[i]) {
        assert (a + b)[i] == a[i];
      }
      forall i | 0 <= i < |b| ensures ValidVersion(b[i]) {
        assert (a + b)[|a| + i] == b[i];
      }
    }
  }
}

/** The ECMAScript string operations the site's code relies on, on `seq<char>`:
    `split` and `join` with a separator, `trim`, `indexOf`, `replace` with a
    string pattern, and the removal of an anchored suffix. */
module Strings {
  import opened Wrappers

  /** Number of occurrences of `c` in `s`. */
  function Count(s: string, c: char): nat
  {
    if |s| == 0 then 0 else (if s[0] == c then 1 else 0) + Count(s[1..], c)
  }

  /** `s.split(sep)` for a one-character separator: the pieces between
      separators, in order; the empty string splits to `[""]`. */
  function Split(s: string, sep: char): (r: seq<string>)
    ensures |r| == Count(s, sep) + 1
    ensures forall i :: 0 <= i < |r| ==> sep !in r[i]
    decreases |s|
  {
    if |s| == 0 then [""]
    else
      var rest := Split(s[1..], sep);
      if s[0] == sep then [""] + rest
      else [[s[0]] + rest[0]] + rest[1..]
  }

  /** `parts.join(sep)`: the empty list joins to "". */
  function Join(parts: seq<string>, sep: string): string
    decreases |parts|
  {
    if |parts| == 0 then ""
    else if |parts| == 1 then parts[0]
    else parts[0] + sep + Join(parts[1..], sep)
  }

  /** Joining the pieces of a split with the same separator gives back the string. */
  lemma {:induction false} JoinSplit(s: string, sep: char)
    ensures Join(Split(s, sep), [sep]) == s
    decreases |s|
  {
    if |s| > 0 {
      var rest := Split(s[1..], sep);
      JoinSplit(s[1..], sep);
      if s[0] == sep {
        assert Split(s, sep) == [""] + rest;
        assert ([""] + rest)[1..] == rest;
      } else {
        var parts := Split(s, sep);
        assert parts == [[s[0]] + rest[0]] + rest[1..];
        if |rest| == 1 {
          assert Join(rest, [sep]) == rest[0];
        } else {
          assert parts[1..] == rest[1..];
          assert Join(rest, [sep]) == rest[0] + [sep] + Join(rest[1..], [sep]);
        }
      }
    }
  }

  /** A string without the separator is a single piece. */
  lemma {:induction false} SplitNoSeparator(a: string, sep: char)
    requires sep !in a
    ensures Split(a, sep) == [a]
    decreases |a|
  {
    if |a| > 0 {
      SplitNoSeparator(a[1..], sep);
      assert [a[0]] + a[1..] == a;
    }
  }

  /** Splitting at a first separator: the text before it is the first piece. */
  lemma {:induction false} SplitAtFirst(a: string, b: string, sep: char)
    requires sep !in a
    ensures Split(a + [sep] + b, sep) == [a] + Split(b, sep)
    decreases |a|
  {
    if |a| == 0 {
      assert a + [sep] + b == [sep] + b;
      assert ([sep] + b)[1..] == b;
    } else {
      var s := a + [sep] + b;
      assert s[0] == a[0];
      assert s[1..] == a[1..] + [sep] + b;
      SplitAtFirst(a[1..], b, sep);
      assert [a[0]] + a[1..] == a;
    }
  }

  /** Splitting a join of separator-free pieces gives back the pieces. */
  lemma {:induction false} SplitJoin(parts: seq<string>, sep: char)
    requires |parts| >= 1
    requires forall i :: 0 <= i < |parts| ==> sep !in parts[i]
    ensures Split(Join(parts, [sep]), sep) == parts
    decreases |parts|
  {
    if |parts| == 1 {
      SplitNoSeparator(parts[0], sep);
    } else {
      SplitJoin(parts[1..], sep);
      SplitAtFirst(parts[0], Join(parts[1..], [sep]), sep);
      assert [parts[0]] + parts[1..] == parts;
    }
  }

  /** The characters ECMAScript's `trim` removes: WhiteSpace (tab, vertical tab,
      form feed, space, no-break space, the byte-order mark and every Unicode
      space separator) and LineTerminator (LF, CR, U+2028, U+2029). */
  predicate IsWhiteSpace(c: char)
  {
    || c == '\t' || c == '\n' || c == '\U{000B}' || c == '\U{000C}' || c == '\r'
    || c == ' ' || c == '\U{00A0}' || c == '\U{1680}'
    || ('\U{2000}' <= c <= '\U{200A}')
    || c == '\U{2028}' || c == '\U{2029}' || c == '\U{202F}' || c == '\U{205F}'
    || c == '\U{3000}' || c == '\U{FEFF}'
  }

  predicate AllWhiteSpace(s: string)
  {
    forall i :: 0 <= i < |s| ==> IsWhiteSpace(s[i])
  }

  /** `s` without its leading white space. */
  function TrimStart(s: string): (r: string)
    ensures |r| <= |s| && s == s[..|s| - |r|] + r
    ensures AllWhiteSpace(s[..|s| - |r|])
    ensures r == [] || !IsWhiteSpace(r[0])
    decreases |s|
  {
    if |s| > 0 && IsWhiteSpace(s[0]) then
      var r := TrimStart(s[1..]);
      TrimStartStep(s, r);
      r
    else s
  }

  /** `s` without its trailing white space. */
  function TrimEnd(s: string): (r: string)
    ensures |r| <= |s| && s == r + s[|r|..]
    ensures AllWhiteSpace(s[|r|..])
    ensures r == [] || !IsWhiteSpace(r[|r| - 1])
    decreases |s|
  {
    if |s| > 0 && IsWhiteSpace(s[|s| - 1]) then
      var r := TrimEnd(s[..|s| - 1]);
      TrimEndStep(s, r);
      r
    else s
  }

  lemma TrimStartStep(s: string, r: string)
    requires |s| > 0 && IsWhiteSpace(s[0])
    requires |r| <= |s| - 1 && s[1..] == s[1..][..|s| - 1 - |r|] + r
    requires AllWhiteSpace(s[1..][..|s| - 1 - |r|])
    ensures s == s[..|s| - |r|] + r
    ensures AllWhiteSpace(s[..|s| - |r|])
  {
    var w := s[1..][..|s| - 1 - |r|];
    var pre := s[..|s| - |r|];
    assert pre == [s[0]] + w;
    assert s == [s[0]] + s[1..];
    forall i | 0 <= i < |pre| ensures IsWhiteSpace(pre[i]) {
      if i > 0 { assert pre[i] == w[i - 1]; }
    }
  }

  lemma TrimEndStep(s: string, r: string)
    requires |s| > 0 && IsWhiteSpace(s[|s| - 1])
    requires |r| <= |s| - 1 && s[..|s| - 1] == r + s[..|s| - 1][|r|..]
    requires AllWhiteSpace(s[..|s| - 1][|r|..])
    ensures s == r + s[|r|..]
    ensures AllWhiteSpace(s[|r|..])
  {
    var w := s[..|s| - 1][|r|..];
    var post := s[|r|..];
    assert post == w + [s[|s| - 1]];
    assert s == s[..|s| - 1] + [s[|s| - 1]];
    forall i | 0 <= i < |post| ensures IsWhiteSpace(post[i]) {
      if i < |w| { assert post[i] == w[i]; }
    }
  }

  /** `t` neither starts nor ends with white space. */
  predicate Trimmed(t: string)
  {
    t == [] || (!IsWhiteSpace(t[0]) && !IsWhiteSpace(t[|t| - 1]))
  }

  /** `s.trim()`: `s` is white space, then the result, then white space, and the
      result neither starts nor ends with white space. */
  function Trim(s: string): (r: string)
    ensures Trimmed(r)
    ensures var lead := |s| - |TrimStart(s)|;
      && lead + |r| <= |s|
      && s == s[..lead] + r + s[lead + |r|..]
      && AllWhiteSpace(s[..lead]) && AllWhiteSpace(s[lead + |r|..])
  {
    var t := TrimStart(s);
    var r := TrimEnd(t);
    TrimParts(s, t, r);
    r
  }

  lemma TrimParts(s: string, t: string, r: string)
    requires |t| <= |s| && s == s[..|s| - |t|] + t
    requires |r| <= |t| && t == r + t[|r|..]
    ensures var lead := |s| - |t|;
      && s == s[..lead] + r + s[lead + |r|..]
      && s[lead + |r|..] == t[|r|..]
  {
    var lead := |s| - |t|;
    var w := s[..lead];
    assert s == w + (r + t[|r|..]);
    assert s[lead + |r|..] == t[|r|..];
  }

  lemma {:induction false} TrimStartSkips(w: string, u: string)
    requires AllWhiteSpace(w)
    requires u == [] || !IsWhiteSpace(u[0])
    ensures TrimStart(w + u) == u
    decreases |w|
  {
    if |w| > 0 {
      assert (w + u)[1..] == w[1..] + u;
      TrimStartSkips(w[1..], u);
    }
  }

  lemma {:induction false} TrimEndSkips(u: string, w: string)
    requires AllWhiteSpace(w)
    requires u == [] || !IsWhiteSpace(u[|u| - 1])
    ensures TrimEnd(u + w) == u
    decreases |w|
  {
    if |w| > 0 {
      assert (u + w)[..|u + w| - 1] == u + w[..|w| - 1];
      TrimEndSkips(u, w[..|w| - 1]);
    }
  }

  /** Trim is determined by its contract: any text that differs from `s` only by
      surrounding white space, and has none at its ends, is `Trim(s)`. */
  lemma TrimUnique(w1: string, t: string, w2: string)
    requires AllWhiteSpace(w1) && AllWhiteSpace(w2)
    requires Trimmed(t)
    ensures Trim(w1 + t + w2) == t
  {
    if t == [] {
      assert w1 + t + w2 == (w1 + w2) + [];
      TrimStartSkips(w1 + w2, []);
    } else {
      assert w1 + t + w2 == w1 + (t + w2);
      TrimStartSkips(w1, t + w2);
      TrimEndSkips(t, w2);
    }
  }

  /** Text without white space at its ends is its own trim, with or without a
      leading space. */
  lemma TrimLeadingSpace(t: string)
    requires Trimmed(t)
    ensures Trim(t) == t
    ensures Trim(" " + t) == t
  {
    assert [] + t + [] == t;
    TrimUnique([], t, []);
    assert [' '] + t + [] == " " + t;
    TrimUnique([' '], t, []);
  }

  /** Text without white space at its ends is its own trim. */
  lemma TrimOfTrimmed(t: string)
    requires Trimmed(t)
    ensures Trim(t) == t
  {
    assert [] + t + [] == t;
    TrimUnique([], t, []);
  }

  /** Trimming twice trims nothing more. */
  lemma TrimIdempotent(s: string)
    ensures Trim(Trim(s)) == Trim(s)
  {
    TrimOfTrimmed(Trim(s));
  }

  /** `p` occurs in `s` starting at index `i`. */
  predicate OccursAt(s: string, p: string, i: nat)
  {
    i + |p| <= |s| && s[i..i + |p|] == p
  }

  /** `s.indexOf(p, from)`: the first index at or after `from` where `p` occurs. */
  function IndexFrom(s: string, p: string, from: nat): (r: Option<nat>)
    ensures r.Some? ==>
      && from <= r.value && OccursAt(s, p, r.value)
      && forall j :: from <= j < r.value ==> !OccursAt(s, p, j)
    ensures r.None? ==> forall j: nat :: from <= j ==> !OccursAt(s, p, j)
    decreases |s| - from
  {
    if from + |p| > |s| then None
    else if s[from..from + |p|] == p then Some(from)
    else IndexFrom(s, p, from + 1)
  }

  /** `p` occurs nowhere in `s`. */
  ghost predicate NoOccurrence(s: string, p: string)
  {
    forall j: nat :: !OccursAt(s, p, j)
  }

  /** `i` is the first index where `p` occurs in `s`. */
  ghost predicate FirstOccurrence(s: string, p: string, i: nat)
  {
    OccursAt(s, p, i) && forall j: nat :: j < i ==> !OccursAt(s, p, j)
  }

  /** `s.replace(p, v)` with a string pattern: the first occurrence of `p` is
      replaced by `v` taken literally; without an occurrence `s` is unchanged. */
  function ReplaceFirst(s: string, p: string, v: string): (r: string)
    ensures NoOccurrence(s, p) ==> r == s
    ensures forall i: nat :: FirstOccurrence(s, p, i) ==> r == s[..i] + v + s[i + |p|..]
  {
    match IndexFrom(s, p, 0)
    case None => s
    case Some(i) => s[..i] + v + s[i + |p|..]
  }

  /** The characters of an occurrence are those of the pattern. */
  lemma OccursAtChar(s: string, p: string, i: nat, k: nat)
    requires OccursAt(s, p, i) && k < |p|
    ensures s[i + k] == p[k]
  {
    assert s[i..i + |p|][k] == s[i + k];
  }

  /** Replacing the first occurrence of `p` keeps every occurrence of `q` that
      does not overlap it: in place before it, shifted by `|v| - |p|` after it. */
  lemma ReplaceKeepsOccurrence(s: string, p: string, v: string, q: string, i: nat) returns (k: nat)
    requires OccursAt(s, q, i)
    requires forall j: nat :: FirstOccurrence(s, p, j) ==> i + |q| <= j || j + |p| <= i
    ensures OccursAt(ReplaceFirst(s, p, v), q, k)
  {
    match IndexFrom(s, p, 0)
    case None =>
      k := i;
    case Some(j) =>
      assert FirstOccurrence(s, p, j);
      if i + |q| <= j {
        k := i;
        SpliceBefore(s, j, j + |p|, v, q, i);
      } else {
        k := i - |p| + |v|;
        SpliceAfter(s, j, j + |p|, v, q, i);
      }
  }

  /** An occurrence that ends before a spliced span stays where it was. */
  lemma SpliceBefore(s: string, lo: nat, hi: nat, v: string, q: string, i: nat)
    requires lo <= hi <= |s| && OccursAt(s, q, i) && i + |q| <= lo
    ensures OccursAt(s[..lo] + v + s[hi..], q, i)
  {
    var r := s[..lo] + v + s[hi..];
    forall t | 0 <= t < |q| ensures r[i + t] == q[t] {
      OccursAtChar(s, q, i, t);
    }
    assert r[i..i + |q|] == q;
  }

  /** An occurrence that starts after a spliced span moves by the change in
      the span's length. */
  lemma SpliceAfter(s: string, lo: nat, hi: nat, v: string, q: string, i: nat)
    requires lo <= hi <= i && OccursAt(s, q, i)
    ensures OccursAt(s[..lo] + v + s[hi..], q, i - (hi - lo) + |v|)
  {
    var r := s[..lo] + v + s[hi..];
    var k := i - (hi - lo) + |v|;
    forall t | 0 <= t < |q| ensures r[k + t] == q[t] {
      OccursAtChar(s, q, i, t);
      assert r[k + t] == s[hi..][i - hi + t];
    }
    assert r[k..k + |q|] == q;
  }

  predicate EndsWith(s: string, suffix: string)
  {
    |suffix| <= |s| && s[|s| - |suffix|..] == suffix
  }

  /** `s.replace(/suffix$/, "")`: one trailing `suffix` removed, if present. */
  function StripSuffix(s: string, suffix: string): (r: string)
    ensures EndsWith(s, suffix) ==> r + suffix == s
    ensures !EndsWith(s, suffix) ==> r == s
  {
    if EndsWith(s, suffix) then s[..|s| - |suffix|] else s
  }

  /** Removing a suffix undoes appending it. */
  lemma StripAppended(t: string, suffix: string)
    ensures StripSuffix(t + suffix, suffix) == t
  {
    assert (t + suffix)[|t|..] == suffix;
  }
}

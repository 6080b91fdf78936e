/**
 The string operations the site relies on, with the meaning JavaScript gives them:
 `String.prototype.trim`, `split` on a one-character separator and `Array.prototype.join`.
 Strings are sequences of Unicode scalar values.
 */
module Strings {

  /** The code points JavaScript counts as WhiteSpace or LineTerminator. They are
      exactly what `trim` strips and what the regular-expression class `\s` matches. */
  const Spaces: set<char> := {
    '\t', '\n', '\U{B}', '\U{C}', '\r', ' ', '\U{A0}', '\U{1680}',
    '\U{2000}', '\U{2001}', '\U{2002}', '\U{2003}', '\U{2004}', '\U{2005}',
    '\U{2006}', '\U{2007}', '\U{2008}', '\U{2009}', '\U{200A}',
    '\U{2028}', '\U{2029}', '\U{202F}', '\U{205F}', '\U{3000}', '\U{FEFF}'
  }

  predicate IsSpace(c: char) {
    c in Spaces
  }

  predicate AllSpace(s: string) {
    forall i :: 0 <= i < |s| ==> IsSpace(s[i])
  }

  /** Neither end of `s` is whitespace. */
  predicate IsTrimmed(s: string) {
    |s| == 0 || (!IsSpace(s[0]) && !IsSpace(s[|s| - 1]))
  }

  /** `s` is `r` with whitespace, possibly none, on either side. */
  predicate Padded(s: string, r: string) {
    exists k :: 0 <= k <= |s| - |r| && r == s[k..k + |r|] && AllSpace(s[..k]) && AllSpace(s[k + |r|..])
  }

  /** `s` with its leading whitespace removed. */
  function TrimStart(s: string): (r: string)
    ensures |r| <= |s| && r == s[|s| - |r|..]
    ensures AllSpace(s[..|s| - |r|])
    ensures |r| > 0 ==> !IsSpace(r[0])
    decreases |s|
  {
    if |s| > 0 && IsSpace(s[0]) then TrimStart(s[1..]) else s
  }

  /** `s` with its trailing whitespace removed. */
  function TrimEnd(s: string): (r: string)
    ensures |r| <= |s| && r == s[..|r|]
    ensures AllSpace(s[|r|..])
    ensures |r| > 0 ==> !IsSpace(r[|r| - 1])
    decreases |s|
  {
    if |s| > 0 && IsSpace(s[|s| - 1]) then TrimEnd(s[..|s| - 1]) else s
  }

  /** JavaScript's `s.trim()`: the infix of `s` left once the whitespace at both ends is gone. */
  function Trim(s: string): (r: string)
    ensures IsTrimmed(r)
    ensures |r| <= |s|
    ensures Padded(s, r)
  {
    var t := TrimStart(s);
    var r := TrimEnd(t);
    TrimPadded(s, t, r);
    r
  }

  lemma TrimPadded(s: string, t: string, r: string)
    requires t == TrimStart(s) && r == TrimEnd(t)
    ensures IsTrimmed(r) && Padded(s, r)
  {
    var k := |s| - |t|;
    SliceFacts(s, t, r, k);
    PaddedWitness(s, r, k);
  }

  /** Trimming leaves nothing exactly when the text is all whitespace. */
  lemma TrimEmpty(s: string)
    ensures Trim(s) == "" <==> AllSpace(s)
  {
    if Trim(s) == "" {
      BlankTrimmedAllSpace(s);
    } else {
      TrimKeepsVisible(s);
    }
  }

  lemma BlankTrimmedAllSpace(s: string)
    requires Trim(s) == ""
    ensures AllSpace(s)
  {
    var k :| 0 <= k <= |s| && AllSpace(s[..k]) && AllSpace(s[k..]);
    assert s == s[..k] + s[k..];
  }

  lemma TrimKeepsVisible(s: string)
    requires Trim(s) != ""
    ensures !AllSpace(s)
  {
    var t := TrimStart(s);
    var r := TrimEnd(t);
    assert Trim(s) == r;
    assert r[0] == t[0];
    assert t[0] == s[|s| - |t|];
  }

  /** A string is its prefix of length `k` followed by the rest. */
  lemma SplitAt(s: string, k: nat)
    requires k <= |s|
    ensures s == s[..k] + s[k..]
  {
  }

  /** Prepending to a non-empty string: its first character, then everything after it. */
  lemma ConsConcat(t: string, f: string)
    requires |t| > 0
    ensures t + f == [t[0]] + (t[1..] + f)
  {
  }

  lemma SliceFacts(s: string, t: string, r: string, k: nat)
    requires k <= |s| && t == s[k..] && |r| <= |t| && r == t[..|r|]
    ensures r == s[k..k + |r|] && s[k + |r|..] == t[|r|..]
    ensures |r| > 0 ==> r[0] == t[0]
  {
  }

  lemma PaddedWitness(s: string, r: string, k: nat)
    requires k <= |s| - |r| && r == s[k..k + |r|] && AllSpace(s[..k]) && AllSpace(s[k + |r|..])
    ensures Padded(s, r)
  {
  }

  lemma {:induction false} TrimStartPadded(a: string, m: string)
    requires AllSpace(a)
    requires |m| == 0 || !IsSpace(m[0])
    ensures TrimStart(a + m) == m
    decreases |a|
  {
    if |a| > 0 {
      assert (a + m)[1..] == a[1..] + m;
      TrimStartPadded(a[1..], m);
    } else {
      assert a + m == m;
    }
  }

  lemma {:induction false} TrimEndPadded(m: string, b: string)
    requires AllSpace(b)
    requires |m| == 0 || !IsSpace(m[|m| - 1])
    ensures TrimEnd(m + b) == m
    decreases |b|
  {
    if |b| > 0 {
      assert (m + b)[..|m + b| - 1] == m + b[..|b| - 1];
      TrimEndPadded(m, b[..|b| - 1]);
    } else {
      assert m + b == m;
    }
  }

  /** Trimming is determined by the characterisation in its contract: whatever trimmed
      text sits between two runs of whitespace is what `Trim` returns. */
  lemma TrimOfPadded(a: string, m: string, b: string)
    requires AllSpace(a) && AllSpace(b) && IsTrimmed(m)
    ensures Trim(a + m + b) == m
  {
    if |m| == 0 {
      assert a + m + b == a + b;
      TrimStartPadded(a + b, "");
      assert a + b + "" == a + b;
    } else {
      assert a + m + b == a + (m + b);
      TrimStartPadded(a, m + b);
      TrimEndPadded(m, b);
    }
  }

  /** Leading whitespace does not change the trimmed text. */
  lemma {:induction false} TrimSkipsLeadingSpace(a: string, c: string)
    requires AllSpace(a)
    ensures Trim(a + c) == Trim(c)
    decreases |a|
  {
    if |a| > 0 {
      assert (a + c)[1..] == a[1..] + c;
      TrimSkipsLeadingSpace(a[1..], c);
    } else {
      assert a + c == c;
    }
  }

  lemma TrimIdempotent(s: string)
    ensures Trim(Trim(s)) == Trim(s)
  {
    TrimmedFixed(Trim(s));
  }

  /** Text already trimmed is left as it is. */
  lemma TrimmedFixed(x: string)
    requires IsTrimmed(x)
    ensures Trim(x) == x
  {
    assert "" + x + "" == x;
    TrimOfPadded("", x, "");
  }

  /** JavaScript's `s.split(sep)` for a one-character separator: the maximal
      separator-free pieces, empty ones included, in order. */
  function Split(s: string, sep: char): (parts: seq<string>)
    ensures |parts| > 0
    ensures forall i :: 0 <= i < |parts| ==> sep !in parts[i]
    decreases |s|
  {
    if |s| == 0 then [""]
    else
      var rest := Split(s[1..], sep);
      if s[0] == sep then [""] + rest else [[s[0]] + rest[0]] + rest[1..]
  }

  /** JavaScript's `parts.join(sep)`; the empty list joins to the empty string. */
  function Join(parts: seq<string>, sep: char): string
  {
    if |parts| == 0 then ""
    else if |parts| == 1 then parts[0]
    else parts[0] + [sep] + Join(parts[1..], sep)
  }

  lemma JoinCons(x: string, t: seq<string>, sep: char)
    ensures Join([x] + t, sep) == if |t| == 0 then x else x + [sep] + Join(t, sep)
  {
    assert ([x] + t)[1..] == t;
  }

  /** Splitting then joining with the same separator gives the text back. */
  lemma {:induction false} JoinSplit(s: string, sep: char)
    ensures Join(Split(s, sep), sep) == s
    decreases |s|
  {
    if |s| > 0 {
      var rest := Split(s[1..], sep);
      JoinSplit(s[1..], sep);
      JoinCons(rest[0], rest[1..], sep);
      assert [rest[0]] + rest[1..] == rest;
      if s[0] == sep {
        JoinCons("", rest, sep);
      } else {
        JoinCons([s[0]] + rest[0], rest[1..], sep);
      }
    }
  }

  /** Joining separator-free pieces then splitting gives the pieces back. */
  lemma {:induction false} SplitJoin(parts: seq<string>, sep: char)
    requires |parts| > 0
    requires forall i :: 0 <= i < |parts| ==> sep !in parts[i]
    ensures Split(Join(parts, sep), sep) == parts
    decreases |Join(parts, sep)|, 1
  {
    if |parts[0]| > 0 {
      SplitJoinCharFirst(parts, sep);
    } else if |parts| > 1 {
      SplitJoinEmptyFirst(parts, sep);
    } else {
      assert parts == [""];
    }
  }

  lemma {:induction false} SplitJoinEmptyFirst(parts: seq<string>, sep: char)
    requires |parts| > 1 && parts[0] == ""
    requires forall i :: 0 <= i < |parts| ==> sep !in parts[i]
    ensures Split(Join(parts, sep), sep) == parts
    decreases |Join(parts, sep)|, 0
  {
    var t := parts[1..];
    JoinEmptyFirst(parts, sep);
    SplitJoin(t, sep);
    SplitSeparatorFirst(Join(t, sep), sep);
    assert parts == [""] + t;
  }

  lemma {:induction false} SplitJoinCharFirst(parts: seq<string>, sep: char)
    requires |parts| > 0 && |parts[0]| > 0
    requires forall i :: 0 <= i < |parts| ==> sep !in parts[i]
    ensures Split(Join(parts, sep), sep) == parts
    decreases |Join(parts, sep)|, 0
  {
    var parts' := [parts[0][1..]] + parts[1..];
    JoinDropFirstChar(parts, sep);
    DropFirstChar(parts, sep);
    SplitJoin(parts', sep);
    SplitOtherFirst(parts[0][0], Join(parts', sep), sep);
    RestoreFirstChar(parts);
  }

  lemma JoinEmptyFirst(parts: seq<string>, sep: char)
    requires |parts| > 1 && parts[0] == ""
    ensures Join(parts, sep) == [sep] + Join(parts[1..], sep)
  {
    assert parts[0] + [sep] == [sep];
  }

  lemma JoinDropFirstChar(parts: seq<string>, sep: char)
    requires |parts| > 0 && |parts[0]| > 0
    ensures Join(parts, sep) == [parts[0][0]] + Join([parts[0][1..]] + parts[1..], sep)
  {
    var p, t := parts[0], parts[1..];
    assert parts == [p] + t;
    JoinCons(p, t, sep);
    JoinCons(p[1..], t, sep);
    assert p == [p[0]] + p[1..];
  }

  lemma RestoreFirstChar(parts: seq<string>)
    requires |parts| > 0 && |parts[0]| > 0
    ensures var parts' := [parts[0][1..]] + parts[1..];
            [[parts[0][0]] + parts'[0]] + parts'[1..] == parts
  {
    var parts' := [parts[0][1..]] + parts[1..];
    assert parts'[0] == parts[0][1..] && parts'[1..] == parts[1..];
    assert [parts[0][0]] + parts[0][1..] == parts[0];
    assert parts == [parts[0]] + parts[1..];
  }

  lemma SplitSeparatorFirst(s: string, sep: char)
    ensures Split([sep] + s, sep) == [""] + Split(s, sep)
  {
    assert ([sep] + s)[1..] == s;
  }

  lemma SplitOtherFirst(c: char, s: string, sep: char)
    requires c != sep
    ensures Split([c] + s, sep) == [[c] + Split(s, sep)[0]] + Split(s, sep)[1..]
  {
    assert ([c] + s)[1..] == s;
  }

  /** Dropping the first character of the first piece keeps every piece separator-free. */
  lemma DropFirstChar(parts: seq<string>, sep: char)
    requires |parts| > 0 && |parts[0]| > 0
    requires forall i :: 0 <= i < |parts| ==> sep !in parts[i]
    ensures parts[0][0] != sep
    ensures forall i :: 0 <= i < |[parts[0][1..]] + parts[1..]| ==> sep !in ([parts[0][1..]] + parts[1..])[i]
  {
    var parts' := [parts[0][1..]] + parts[1..];
    assert parts[0][0] in parts[0];
    forall i | 0 <= i < |parts'| ensures sep !in parts'[i] {
      if i == 0 {
        assert forall c :: c in parts[0][1..] ==> c in parts[0];
      } else {
        assert parts'[i] == parts[i];
      }
    }
  }

  /** The text after the first `sep`. */
  function After(s: string, sep: char): (r: string)
    requires sep in s
    ensures |r| < |s| && r == s[|s| - |r|..] && s[|s| - |r| - 1] == sep
    ensures sep !in s[..|s| - |r| - 1]
  {
    if s[0] == sep then s[1..] else After(s[1..], sep)
  }

  /** The text before the first `sep`, or all of `s` when it has none. */
  function UpTo(s: string, sep: char): (r: string)
    ensures |r| <= |s| && r == s[..|r|] && sep !in r
    ensures |r| < |s| ==> s[|r|] == sep
  {
    if |s| == 0 || s[0] == sep then "" else [s[0]] + UpTo(s[1..], sep)
  }

  /** The text after the first separator of `a + sep + b`, when `a` holds none, is `b`. */
  lemma {:induction false} AfterFirst(a: string, b: string, sep: char)
    requires sep !in a
    ensures sep in a + ([sep] + b)
    ensures After(a + ([sep] + b), sep) == b
    decreases |a|
  {
    var s := a + ([sep] + b);
    assert s[|a|] == sep;
    if |a| > 0 {
      assert s[1..] == a[1..] + ([sep] + b);
      AfterFirst(a[1..], b, sep);
    } else {
      assert s == [sep] + b;
    }
  }

  /** A text without the separator is its own first piece. */
  lemma {:induction false} UpToWithoutSeparator(s: string, sep: char)
    requires sep !in s
    ensures UpTo(s, sep) == s
    decreases |s|
  {
    if |s| > 0 {
      UpToWithoutSeparator(s[1..], sep);
      assert s == [s[0]] + s[1..];
    }
  }

  /** The first piece of a split is the text up to the first separator. */
  lemma {:induction false} SplitHead(s: string, sep: char)
    ensures Split(s, sep)[0] == UpTo(s, sep)
    decreases |s|
  {
    if |s| > 0 && s[0] != sep {
      SplitHead(s[1..], sep);
    }
  }

  /** Dropping the first piece of a split is splitting what follows the first separator. */
  lemma {:induction false} SplitTail(s: string, sep: char)
    requires sep in s
    ensures Split(s, sep)[1..] == Split(After(s, sep), sep)
    decreases |s|
  {
    if s[0] != sep {
      assert sep in s[1..] by {
        var i :| 0 <= i < |s| && s[i] == sep;
        assert s[1..][i - 1] == sep;
      }
      SplitTail(s[1..], sep);
    }
  }

  /** A text without the separator splits into itself alone. */
  lemma {:induction false} SplitWithoutSeparator(s: string, sep: char)
    requires sep !in s
    ensures Split(s, sep) == [s]
    decreases |s|
  {
    if |s| > 0 {
      assert s == [s[0]] + s[1..];
      SplitWithoutSeparator(s[1..], sep);
    }
  }
}

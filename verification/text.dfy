/** Character-level helpers shared by the form rules: whitespace, `trim`, `split('.')`
    and the unanchored regular-expression search `/\S+@\S+\.\S+/`. */
module Text {

  /** The ASCII whitespace characters matched by `\s` and removed by `trim`:
      space, tab, line feed, vertical tab, form feed and carriage return. */
  predicate IsSpace(c: char) {
    c == ' ' || c == '\t' || c == '\n' || c == '\r' || c as int == 11 || c as int == 12
  }

  /** A string `trim()` turns into the empty, hence falsy, string. */
  ghost predicate IsBlank(s: string) {
    forall i :: 0 <= i < |s| ==> IsSpace(s[i])
  }

  /** `trimStart`: drops the leading whitespace and nothing else. */
  function TrimStart(s: string): (r: string)
    ensures |r| <= |s| && r == s[|s| - |r|..]
    ensures forall i :: 0 <= i < |s| - |r| ==> IsSpace(s[i])
    ensures |r| > 0 ==> !IsSpace(r[0])
  {
    if |s| > 0 && IsSpace(s[0]) then TrimStart(s[1..]) else s
  }

  /** `trimEnd`: drops the trailing whitespace and nothing else. */
  function TrimEnd(s: string): (r: string)
    ensures |r| <= |s| && r == s[..|r|]
    ensures forall i :: |r| <= i < |s| ==> IsSpace(s[i])
    ensures |r| > 0 ==> !IsSpace(r[|r| - 1])
  {
    if |s| > 0 && IsSpace(s[|s| - 1]) then TrimEnd(s[..|s| - 1]) else s
  }

  /** `String.prototype.trim`. */
  function Trim(s: string): string {
    TrimEnd(TrimStart(s))
  }

  /** `value.trim()` is falsy exactly when the value is all whitespace. */
  lemma TrimEmptyIffBlank(s: string)
    ensures Trim(s) == "" <==> IsBlank(s)
  {
    var t := TrimStart(s);
    if Trim(s) == "" {
      assert |t| == 0;
    } else {
      var r := Trim(s);
      assert !IsSpace(r[0]);
      assert r[0] == t[0] == s[|s| - |t|];
    }
  }

  // ---------------------------------------------------------------------------
  // `path.split('.')` and its inverse

  /** `s.split(sep)` for a one-character separator: always at least one part. */
  function Split(s: string, sep: char): (parts: seq<string>)
    ensures |parts| >= 1
    ensures forall i :: 0 <= i < |parts| ==> sep !in parts[i]
  {
    if |s| == 0 then [""]
    else
      var rest := Split(s[1..], sep);
      if s[0] == sep then [""] + rest
      else [[s[0]] + rest[0]] + rest[1..]
  }

  /** `parts.join(sep)`. */
  function Join(parts: seq<string>, sep: char): string
    requires |parts| >= 1
  {
    if |parts| == 1 then parts[0] else parts[0] + [sep] + Join(parts[1..], sep)
  }

  lemma {:induction false} JoinConsHead(c: char, parts: seq<string>, sep: char)
    requires |parts| >= 1
    ensures Join([[c] + parts[0]] + parts[1..], sep) == [c] + Join(parts, sep)
  {
    var p := [[c] + parts[0]] + parts[1..];
    assert p[1..] == parts[1..];
  }

  /** Joining the parts of a split gives back the original string. */
  lemma {:induction false} JoinSplit(s: string, sep: char)
    ensures Join(Split(s, sep), sep) == s
  {
    if |s| > 0 {
      var rest := Split(s[1..], sep);
      JoinSplit(s[1..], sep);
      if s[0] == sep {
        assert ([""] + rest)[1..] == rest;
        assert s == [s[0]] + s[1..];
      } else {
        JoinConsHead(s[0], rest, sep);
        assert s == [s[0]] + s[1..];
      }
    }
  }

  /** Splitting a join of separator-free parts gives back the parts, so a dotted path
      and its list of segments determine each other. */
  lemma {:induction false} SplitJoin(parts: seq<string>, sep: char)
    requires |parts| >= 1
    requires forall i :: 0 <= i < |parts| ==> sep !in parts[i]
    ensures Split(Join(parts, sep), sep) == parts
  {
    if |parts| == 1 {
      SplitNoSeparator(parts[0], sep);
    } else {
      SplitJoin(parts[1..], sep);
      SplitAfterSegment(parts[0], Join(parts[1..], sep), sep);
      assert [parts[0]] + parts[1..] == parts;
    }
  }

  /** A string without the separator splits into itself. */
  lemma {:induction false} SplitNoSeparator(s: string, sep: char)
    requires sep !in s
    ensures Split(s, sep) == [s]
  {
    if |s| > 0 {
      assert sep !in s[1..];
      SplitNoSeparator(s[1..], sep);
      assert s == [s[0]] + s[1..];
    }
  }

  /** A separator-free segment followed by the separator splits off as the first part. */
  lemma {:induction false} SplitAfterSegment(a: string, b: string, sep: char)
    requires sep !in a
    ensures Split(a + [sep] + b, sep) == [a] + Split(b, sep)
  {
    if |a| == 0 {
      assert a + [sep] + b == [sep] + b;
      assert ([sep] + b)[1..] == b;
    } else {
      var s := a + [sep] + b;
      assert s[1..] == a[1..] + [sep] + b;
      assert sep !in a[1..];
      SplitAfterSegment(a[1..], b, sep);
      assert a == [a[0]] + a[1..];
    }
  }

  // ---------------------------------------------------------------------------
  // `/\S+@\S+\.\S+/.test(s)`

  /** Positions `a` (the '@') and `d` (the '.') at which the pattern matches: a
      non-space before '@', at least one non-space between '@' and '.', and a
      non-space after '.'. Characters between may themselves be '@' or '.'. */
  ghost predicate EmailWitness(s: string, a: int, d: int) {
    && 1 <= a
    && a + 2 <= d
    && d + 1 < |s|
    && s[a] == '@'
    && s[d] == '.'
    && !IsSpace(s[a - 1])
    && !IsSpace(s[d + 1])
    && (forall k :: a < k < d ==> !IsSpace(s[k]))
  }

  /** The regular expression matches somewhere in `s`. */
  ghost predicate LooksLikeEmail(s: string) {
    exists a, d :: EmailWitness(s, a, d)
  }

  /** Scans the run of non-spaces after the '@' at `a`, from `d` on, for a usable '.'. */
  function DotFrom(s: string, a: nat, d: nat): (found: bool)
    requires 1 <= a < |s| && s[a] == '@' && !IsSpace(s[a - 1])
    requires a + 1 <= d
    requires forall k :: a < k < d && k < |s| ==> !IsSpace(s[k])
    ensures found <==> exists d' :: d <= d' && EmailWitness(s, a, d')
    decreases |s| - d
  {
    if d + 1 >= |s| then
      assert forall d' :: d <= d' ==> !EmailWitness(s, a, d');
      false
    else if IsSpace(s[d]) then
      assert forall d' :: d <= d' ==> !EmailWitness(s, a, d') by {
        forall d' | d < d'
          ensures !EmailWitness(s, a, d')
        {
          assert a < d;
        }
      }
      false
    else if a + 2 <= d && s[d] == '.' && !IsSpace(s[d + 1]) then
      assert EmailWitness(s, a, d);
      true
    else
      var found := DotFrom(s, a, d + 1);
      assert !EmailWitness(s, a, d);
      assert found <==> exists d' :: d <= d' && EmailWitness(s, a, d') by {
        if found {
          var d' :| d + 1 <= d' && EmailWitness(s, a, d');
          assert d <= d';
        }
      }
      found
  }

  /** Tries every '@' position from `a` on. */
  function AtFrom(s: string, a: nat): (found: bool)
    requires 1 <= a
    ensures found <==> exists a', d :: a <= a' && EmailWitness(s, a', d)
    decreases |s| - a
  {
    if a >= |s| then
      false
    else
      var here := s[a] == '@' && !IsSpace(s[a - 1]) && DotFrom(s, a, a + 1);
      var later := AtFrom(s, a + 1);
      assert here <==> exists d :: EmailWitness(s, a, d) by {
        if exists d :: EmailWitness(s, a, d) {
          var d :| EmailWitness(s, a, d);
          assert a + 1 <= d;
        }
      }
      assert (here || later) <==> exists a', d :: a <= a' && EmailWitness(s, a', d) by {
        if exists a', d :: a <= a' && EmailWitness(s, a', d) {
          var a', d :| a <= a' && EmailWitness(s, a', d);
          if a' == a { assert here; } else { assert later; }
        }
      }
      here || later
  }

  /** `/\S+@\S+\.\S+/.test(s)`. */
  function IsEmailLike(s: string): (found: bool)
    ensures found <==> LooksLikeEmail(s)
  {
    var found := AtFrom(s, 1);
    assert found <==> LooksLikeEmail(s) by {
      if LooksLikeEmail(s) {
        var a, d :| EmailWitness(s, a, d);
        assert 1 <= a;
      }
    }
    found
  }
}

/**
 * The string primitives the pipeline relies on, with the semantics of the
 * Python built-ins it calls: `sub in s`, `s.replace(a, b)`, `s.split(c)`,
 * `sep.join(parts)` and `s.strip(chars)`.
 */
module Strings {

  /** `sub in s`: `sub` occurs somewhere in `s`. */
  predicate Contains(s: string, sub: string)
    decreases |s|
  {
    sub <= s || (|s| > 0 && Contains(s[1..], sub))
  }

  /** `Contains` agrees with the textbook definition of "occurs at some offset". */
  lemma {:induction false} ContainsAt(s: string, sub: string)
    ensures Contains(s, sub) <==> exists i :: 0 <= i <= |s| - |sub| && sub <= s[i..]
    decreases |s|
  {
    if sub <= s {
      assert s[0..] == s;
    } else if |s| > 0 {
      ContainsAt(s[1..], sub);
      if Contains(s[1..], sub) {
        var i :| 0 <= i <= |s[1..]| - |sub| && sub <= s[1..][i..];
        assert s[1..][i..] == s[i + 1..];
      }
      if exists i :: 0 <= i <= |s| - |sub| && sub <= s[i..] {
        var i :| 0 <= i <= |s| - |sub| && sub <= s[i..];
        assert i != 0 by { assert s[0..] == s; }
        assert s[1..][i - 1..] == s[i..];
      }
    }
  }

  /**
   * `s.replace(target, replacement)`: every occurrence of `target`, scanning
   * left to right without overlap, is replaced. Python's special meaning of an
   * empty `target` is never used by the pipeline.
   */
  function Replace(s: string, target: string, replacement: string): string
    requires |target| > 0
    decreases |s|
  {
    if |s| == 0 then s
    else if target <= s then replacement + Replace(s[|target|..], target, replacement)
    else [s[0]] + Replace(s[1..], target, replacement)
  }

  /** A string in which `target` does not occur is left unchanged by `Replace`. */
  lemma {:induction false} ReplaceAbsent(s: string, target: string, replacement: string)
    requires |target| > 0
    requires !Contains(s, target)
    ensures Replace(s, target, replacement) == s
    decreases |s|
  {
    if |s| > 0 {
      ReplaceAbsent(s[1..], target, replacement);
      assert [s[0]] + s[1..] == s;
    }
  }

  /** `sep.join(parts)`. */
  function Join(parts: seq<string>, sep: string): string
  {
    if |parts| == 0 then ""
    else if |parts| == 1 then parts[0]
    else parts[0] + sep + Join(parts[1..], sep)
  }

  /**
   * `s.split(sep)` for a one-character separator: the pieces between the
   * separators, so always at least one piece.
   */
  function Split(s: string, sep: char): (parts: seq<string>)
    ensures |parts| >= 1
    decreases |s|
  {
    if |s| == 0 then [""]
    else
      var rest := Split(s[1..], sep);
      if s[0] == sep then [""] + rest
      else [[s[0]] + rest[0]] + rest[1..]
  }

  /** Splitting then joining with the same separator gives the input back. */
  lemma {:induction false} SplitJoin(s: string, sep: char)
    ensures Join(Split(s, sep), [sep]) == s
    decreases |s|
  {
    if |s| > 0 {
      var rest := Split(s[1..], sep);
      SplitJoin(s[1..], sep);
      if s[0] == sep {
        assert Split(s, sep) == [""] + rest;
        assert ([""] + rest)[1..] == rest;
        assert s == [sep] + s[1..];
      } else {
        var parts := Split(s, sep);
        assert parts[0] == [s[0]] + rest[0];
        assert parts[1..] == rest[1..];
        if |rest| == 1 {
          assert Join(parts, [sep]) == [s[0]] + rest[0];
        } else {
          assert Join(rest, [sep]) == rest[0] + [sep] + Join(rest[1..], [sep]);
        }
        assert [s[0]] + s[1..] == s;
      }
    }
  }

  /** A piece free of the separator, followed by the separator, is split off as the first piece. */
  lemma {:induction false} SplitAfterPiece(x: string, sep: char, rest: string)
    requires sep !in x
    ensures Split(x + [sep] + rest, sep) == [x] + Split(rest, sep)
    decreases |x|
  {
    if |x| > 0 {
      SplitAfterPiece(x[1..], sep, rest);
      assert (x + [sep] + rest)[1..] == x[1..] + [sep] + rest;
      assert [x[0]] + x[1..] == x;
    } else {
      assert x + [sep] + rest == [sep] + rest;
    }
  }

  /** A string free of the separator splits into itself alone. */
  lemma {:induction false} SplitNoSeparator(x: string, sep: char)
    requires sep !in x
    ensures Split(x, sep) == [x]
    decreases |x|
  {
    if |x| > 0 {
      SplitNoSeparator(x[1..], sep);
      assert [x[0]] + x[1..] == x;
    }
  }

  /** A string that contains the separator splits into at least two pieces. */
  lemma {:induction false} SplitHasSeparator(s: string, sep: char)
    requires sep in s
    ensures |Split(s, sep)| >= 2
    decreases |s|
  {
    if s[0] != sep {
      assert sep in s[1..] by {
        var i :| 0 <= i < |s| && s[i] == sep;
        assert s[1..][i - 1] == sep;
      }
      SplitHasSeparator(s[1..], sep);
    }
  }

  /**
   * Joining a non-empty list of separator-free pieces and splitting the result
   * gives the same list back.
   */
  lemma {:induction false} JoinSplit(parts: seq<string>, sep: char)
    requires |parts| >= 1
    requires forall k :: 0 <= k < |parts| ==> sep !in parts[k]
    ensures Split(Join(parts, [sep]), sep) == parts
    decreases |parts|
  {
    if |parts| == 1 {
      SplitNoSeparator(parts[0], sep);
    } else {
      JoinSplit(parts[1..], sep);
      SplitAfterPiece(parts[0], sep, Join(parts[1..], [sep]));
      assert [parts[0]] + parts[1..] == parts;
    }
  }

  /** `s.lstrip(chars)`: drop leading characters that occur in `chars`. */
  function StripLeft(s: string, chars: string): (r: string)
    ensures |r| <= |s| && r == s[|s| - |r|..]
    ensures r == [] || r[0] !in chars
    decreases |s|
  {
    if |s| > 0 && s[0] in chars then StripLeft(s[1..], chars) else s
  }

  /** `s.rstrip(chars)`: drop trailing characters that occur in `chars`. */
  function StripRight(s: string, chars: string): (r: string)
    ensures |r| <= |s| && r == s[..|r|]
    ensures r == [] || r[|r| - 1] !in chars
    decreases |s|
  {
    if |s| > 0 && s[|s| - 1] in chars then StripRight(s[..|s| - 1], chars) else s
  }

  /** `s.strip(chars)`: `chars` is a set of characters removed from both ends. */
  function Strip(s: string, chars: string): (r: string)
    ensures |r| <= |s|
    ensures r == [] || (r[0] !in chars && r[|r| - 1] !in chars)
  {
    var left := StripLeft(s, chars);
    var r := StripRight(left, chars);
    assert r == [] || r[0] == left[0];
    r
  }

  /** Leading characters from the set are all removed by `StripLeft`. */
  lemma {:induction false} StripLeftPrefix(p: string, s: string, chars: string)
    requires forall i :: 0 <= i < |p| ==> p[i] in chars
    ensures StripLeft(p + s, chars) == StripLeft(s, chars)
    decreases |p|
  {
    if |p| > 0 {
      assert (p + s)[1..] == p[1..] + s;
      StripLeftPrefix(p[1..], s, chars);
    } else {
      assert p + s == s;
    }
  }

  /** Trailing characters from the set are all removed by `StripRight`. */
  lemma {:induction false} StripRightSuffix(s: string, q: string, chars: string)
    requires forall i :: 0 <= i < |q| ==> q[i] in chars
    ensures StripRight(s + q, chars) == StripRight(s, chars)
    decreases |q|
  {
    if |q| > 0 {
      assert (s + q)[..|s + q| - 1] == s + q[..|q| - 1];
      StripRightSuffix(s, q[..|q| - 1], chars);
    } else {
      assert s + q == s;
    }
  }

  /**
   * Stripping a string made of a prefix and a suffix of set characters around a
   * middle whose ends are outside the set yields exactly the middle.
   */
  lemma StripAround(p: string, m: string, q: string, chars: string)
    requires forall i :: 0 <= i < |p| ==> p[i] in chars
    requires forall i :: 0 <= i < |q| ==> q[i] in chars
    requires m == [] || (m[0] !in chars && m[|m| - 1] !in chars)
    ensures Strip(p + m + q, chars) == m
  {
    assert p + m + q == p + (m + q);
    StripLeftPrefix(p, m + q, chars);
    if m == [] {
      assert m + q == q + [];
      StripLeftPrefix(q, [], chars);
    } else {
      assert StripLeft(m + q, chars) == m + q;
      StripRightSuffix(m, q, chars);
    }
  }

  /** Everything `StripLeft` removes is in the set. */
  lemma {:induction false} StripLeftRemoved(s: string, chars: string)
    ensures forall i :: 0 <= i < |s| - |StripLeft(s, chars)| ==> s[i] in chars
    decreases |s|
  {
    if |s| > 0 && s[0] in chars {
      StripLeftRemoved(s[1..], chars);
      assert forall i :: 1 <= i < |s| ==> s[i] == s[1..][i - 1];
    }
  }

  /** Everything `StripRight` removes is in the set. */
  lemma {:induction false} StripRightRemoved(s: string, chars: string)
    ensures forall i :: |StripRight(s, chars)| <= i < |s| ==> s[i] in chars
    decreases |s|
  {
    if |s| > 0 && s[|s| - 1] in chars {
      StripRightRemoved(s[..|s| - 1], chars);
    }
  }

  /**
   * `Strip` keeps one contiguous slice of its input, and every character it
   * drops, at either end, is in the set.
   */
  lemma StripSlice(s: string, chars: string)
    ensures exists i, j ::
              && 0 <= i <= j <= |s|
              && Strip(s, chars) == s[i..j]
              && (forall k :: 0 <= k < i ==> s[k] in chars)
              && (forall k :: j <= k < |s| ==> s[k] in chars)
  {
    var left := StripLeft(s, chars);
    var i := |s| - |left|;
    var j := i + |StripRight(left, chars)|;
    StripLeftRemoved(s, chars);
    StripRightRemoved(left, chars);
    assert forall k :: j <= k < |s| ==> s[k] == left[k - i];
    assert Strip(s, chars) == s[i..j];
  }

  /** Stripping twice is the same as stripping once. */
  lemma StripIdempotent(s: string, chars: string)
    ensures Strip(Strip(s, chars), chars) == Strip(s, chars)
  {
    var r := Strip(s, chars);
    StripAround([], r, [], chars);
    assert [] + r + [] == r;
  }
}

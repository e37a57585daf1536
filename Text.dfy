/** Character classes of the regular expressions the generators use, and the
    string assembly (`join`, accumulation by `reduce`) they are built from. */
module Text {

  /** `[A-Z]`. */
  predicate IsUpper(c: char)
  {
    'A' <= c <= 'Z'
  }

  /** `[A-Za-z0-9_]`: also exactly the characters that JavaScript's `\b` counts as
      word characters. */
  predicate IsWordChar(c: char)
  {
    'A' <= c <= 'Z' || 'a' <= c <= 'z' || '0' <= c <= '9' || c == '_'
  }

  /** Every character of `s` is a word character. */
  predicate AllWordChars(s: string)
  {
    forall k :: 0 <= k < |s| ==> IsWordChar(s[k])
  }

  /** The JavaScript line terminators, the characters that `.` does not match. */
  predicate IsLineTerminator(c: char)
  {
    c == '\n' || c == '\r' || c == '\U{2028}' || c == '\U{2029}'
  }

  /** `Array.prototype.join(sep)`. */
  function Join(parts: seq<string>, sep: string): string
  {
    if |parts| == 0 then ""
    else if |parts| == 1 then parts[0]
    else Join(parts[..|parts| - 1], sep) + sep + parts[|parts| - 1]
  }

  /** Number of occurrences of `c` in `s`. */
  function Count(s: string, c: char): nat
  {
    if s == [] then 0
    else Count(s[..|s| - 1], c) + (if s[|s| - 1] == c then 1 else 0)
  }

  /** No part contains `c`. */
  predicate NoneContains(parts: seq<string>, c: char)
  {
    forall i :: 0 <= i < |parts| ==> c !in parts[i]
  }

  lemma NoneContainsCons(first: string, rest: seq<string>, c: char)
    requires c !in first && NoneContains(rest, c)
    ensures NoneContains([first] + rest, c)
  {
    forall i | 0 <= i < |[first] + rest| ensures c !in ([first] + rest)[i] {
      if i > 0 {
        assert ([first] + rest)[i] == rest[i - 1];
      }
    }
  }

  lemma {:induction false} CountAppend(a: string, b: string, c: char)
    ensures Count(a + b, c) == Count(a, c) + Count(b, c)
    decreases |b|
  {
    if b == [] {
      assert a + b == a;
    } else {
      assert (a + b)[..|a + b| - 1] == a + b[..|b| - 1];
      CountAppend(a, b[..|b| - 1], c);
    }
  }

  lemma {:induction false} CountAbsent(s: string, c: char)
    requires c !in s
    ensures Count(s, c) == 0
    decreases |s|
  {
    if s != [] {
      assert s == s[..|s| - 1] + [s[|s| - 1]];
      CountAbsent(s[..|s| - 1], c);
    }
  }

  /** A join with a one-character separator that no part contains holds exactly
      one separator fewer than it has parts. */
  lemma {:induction false} JoinCount(parts: seq<string>, c: char)
    requires |parts| >= 1
    requires NoneContains(parts, c)
    ensures Count(Join(parts, [c]), c) == |parts| - 1
    decreases |parts|
  {
    var n := |parts|;
    if n == 1 {
      CountAbsent(parts[0], c);
    } else {
      var init := parts[..n - 1];
      assert NoneContains(init, c) by {
        forall i | 0 <= i < |init| ensures c !in init[i] {
          assert init[i] == parts[i];
        }
      }
      JoinCount(init, c);
      CountAppend(Join(init, [c]), [c], c);
      assert Count([c], c) == 1 by {
        assert [c][..0] == [];
      }
      CountAppend(Join(init, [c]) + [c], parts[n - 1], c);
      CountAbsent(parts[n - 1], c);
    }
  }

  /** The first part, then the separator when there is a second part, open the join. */
  lemma {:induction false} JoinStartsWith(parts: seq<string>, sep: string)
    requires |parts| >= 1
    ensures parts[0] <= Join(parts, sep)
    ensures |parts| >= 2 ==> parts[0] + sep <= Join(parts, sep)
    decreases |parts|
  {
    var n := |parts|;
    if n >= 2 {
      var init := parts[..n - 1];
      if n > 2 {
        JoinStartsWith(init, sep);
      }
      assert init[0] == parts[0];
      assert Join(parts, sep) == Join(init, sep) + (sep + parts[n - 1]);
    }
  }
}

/**
  The JavaScript string operations the search route is built from:
  `includes`, `toLowerCase`, `split`, `join` and `repeat`.
  A `char` here is one Unicode scalar value. JavaScript's `length` and
  `substring` count UTF-16 code units instead; the two agree on strings
  whose characters all lie in the Basic Multilingual Plane.
 */
module Strings {

  /** `sub` occurs in `s` starting at index `i`. */
  ghost predicate OccursAt(s: string, sub: string, i: int)
  {
    0 <= i && i + |sub| <= |s| && s[i..i + |sub|] == sub
  }

  /** `s.includes(sub)`, decided from the left. */
  function Contains(s: string, sub: string): (b: bool)
    ensures b ==> |sub| <= |s|
    ensures sub == [] ==> b
    decreases |s|
  {
    if |sub| > |s| then false
    else if s[..|sub|] == sub then true
    else Contains(s[1..], sub)
  }

  /** `includes` holds exactly when some index of `s` starts an occurrence of `sub`. */
  lemma {:induction false} ContainsIff(s: string, sub: string)
    ensures Contains(s, sub) <==> exists i :: OccursAt(s, sub, i)
    decreases |s|
  {
    if |sub| > |s| {
    } else if s[..|sub|] == sub {
      assert OccursAt(s, sub, 0);
    } else {
      ContainsIff(s[1..], sub);
      ShiftOccurrence(s, sub);
    }
  }

  /** An occurrence in `s[1..]` is an occurrence in `s` one place further on, and back. */
  lemma ShiftOccurrence(s: string, sub: string)
    requires |s| > 0
    ensures (exists i :: OccursAt(s[1..], sub, i)) <==> (exists i :: 1 <= i && OccursAt(s, sub, i))
  {
    forall i | OccursAt(s[1..], sub, i) ensures OccursAt(s, sub, i + 1) {
      assert s[1..][i..i + |sub|] == s[i + 1..i + 1 + |sub|];
    }
    forall i | 1 <= i && OccursAt(s, sub, i) ensures OccursAt(s[1..], sub, i - 1) {
      assert s[1..][i - 1..i - 1 + |sub|] == s[i..i + |sub|];
    }
  }

  /** Lower-casing of one character, ASCII letters only. */
  function LowerChar(c: char): (d: char)
    ensures !('A' <= d <= 'Z')
    ensures 'a' <= d <= 'z' ==> c == d || c == (d as int - 'a' as int + 'A' as int) as char
    ensures !('a' <= d <= 'z') ==> c == d
  {
    if 'A' <= c <= 'Z' then (c as int - 'A' as int + 'a' as int) as char else c
  }

  /** `s.toLowerCase()`, restricted to the ASCII letters. */
  function Lower(s: string): (r: string)
    ensures |r| == |s|
    ensures forall i :: 0 <= i < |s| ==> r[i] == LowerChar(s[i])
  {
    seq(|s|, i requires 0 <= i < |s| => LowerChar(s[i]))
  }

  /** Lower-casing twice is lower-casing once. */
  lemma LowerIdempotent(s: string)
    ensures Lower(Lower(s)) == Lower(s)
  {
    forall i | 0 <= i < |s| ensures Lower(Lower(s))[i] == Lower(s)[i] {
      assert !('A' <= Lower(s)[i] <= 'Z');
    }
  }

  /** An occurrence of `sub` in `s` is an occurrence of `Lower(sub)` in `Lower(s)`:
      a case-insensitive search finds a label written in any case. */
  lemma ContainsLower(s: string, sub: string)
    requires Contains(s, sub)
    ensures Contains(Lower(s), Lower(sub))
  {
    ContainsIff(s, sub);
    ContainsIff(Lower(s), Lower(sub));
    var i :| OccursAt(s, sub, i);
    forall j | 0 <= j < |sub| ensures Lower(s)[i..i + |sub|][j] == Lower(sub)[j] {
      assert s[i..i + |sub|][j] == sub[j];
    }
    assert OccursAt(Lower(s), Lower(sub), i);
  }

  /** `c.repeat(n)`: the character `c`, `n` times. */
  function Repeat(c: char, n: nat): (r: string)
    ensures |r| == n
    ensures forall i :: 0 <= i < n ==> r[i] == c
  {
    if n == 0 then "" else [c] + Repeat(c, n - 1)
  }

  /** `s.split(sep)` for a one-character separator: the pieces between separators,
      including the empty ones; the empty string splits into one empty piece. */
  function Split(s: string, sep: char): (parts: seq<string>)
    ensures |parts| >= 1
    ensures forall k :: 0 <= k < |parts| ==> sep !in parts[k]
    decreases |s|
  {
    if s == [] then [""]
    else
      var rest := Split(s[1..], sep);
      if s[0] == sep then [""] + rest
      else [[s[0]] + rest[0]] + rest[1..]
  }

  /** `parts.join(sep)`; the empty array joins to the empty string. */
  function Join(parts: seq<string>, sep: string): (j: string)
    ensures |parts| == 0 ==> j == ""
    ensures |parts| >= 1 ==> |parts[0]| <= |j| && j[..|parts[0]|] == parts[0]
  {
    if |parts| == 0 then ""
    else if |parts| == 1 then parts[0]
    else parts[0] + sep + Join(parts[1..], sep)
  }

  /** Joining the pieces of a split with the separator gives back the original string. */
  lemma {:induction false} JoinSplit(s: string, sep: char)
    ensures Join(Split(s, sep), [sep]) == s
    decreases |s|
  {
    if s != [] {
      var rest := Split(s[1..], sep);
      JoinSplit(s[1..], sep);
      if s[0] == sep {
        assert Split(s, sep)[1..] == rest;
      } else if |rest| == 1 {
        assert [s[0]] + s[1..] == s;
      } else {
        var parts := Split(s, sep);
        assert parts[1..] == rest[1..];
        assert [s[0]] + (rest[0] + [sep] + Join(rest[1..], [sep])) == s;
      }
    }
  }

  /** A string without the separator splits into itself alone. */
  lemma {:induction false} SplitWithoutSep(p: string, sep: char)
    requires sep !in p
    ensures Split(p, sep) == [p]
    decreases |p|
  {
    if p != [] {
      SplitWithoutSep(p[1..], sep);
      assert [p[0]] + p[1..] == p;
    }
  }

  /** Splitting `p + sep + t`, where `p` has no separator, yields `p` and then the pieces of `t`. */
  lemma {:induction false} SplitAcross(p: string, t: string, sep: char)
    requires sep !in p
    ensures Split(p + [sep] + t, sep) == [p] + Split(t, sep)
    decreases |p|
  {
    var s := p + [sep] + t;
    if p == [] {
      assert s[1..] == t;
    } else {
      assert s[1..] == p[1..] + [sep] + t;
      SplitAcross(p[1..], t, sep);
      assert [p[0]] + p[1..] == p;
    }
  }

  /** Concatenation is associative. */
  lemma AppendAssoc(x: string, y: string, z: string)
    ensures (x + y) + z == x + (y + z)
  {
  }

  /** Three unbroken lines and a blank line, then `body`, split into those four lines and
      the pieces of `body`. */
  lemma SplitThreeLines(a: string, b: string, c: string, body: string)
    requires '\n' !in a && '\n' !in b && '\n' !in c
    ensures Split(a + "\n" + b + "\n" + c + "\n\n" + body, '\n') == [a, b, c, ""] + Split(body, '\n')
  {
    var n: string := ['\n'];
    var t3 := [] + n + body;
    var t2 := c + n + t3;
    var t1 := b + n + t2;
    AppendAssoc(n, n, body);
    assert [] + n + body == n + body;
    AppendAssoc(a + n + b + n + c, n + n, body);
    AppendAssoc(a + n + b + n, c, n + (n + body));
    AppendAssoc(a + n + b + n + c, n, n + body);
    AppendAssoc(a + n + b, n, c + n + (n + body));
    AppendAssoc(a + n, b, n + (c + n + (n + body)));
    AppendAssoc(a + n + b, n, c + n + t3);
    AppendAssoc(a + n, b, n + t2);
    AppendAssoc(a + n, b + n, t2);
    assert a + "\n" + b + "\n" + c + "\n\n" + body == a + n + t1;
    SplitAcross([], body, '\n');
    SplitAcross(c, t3, '\n');
    SplitAcross(b, t2, '\n');
    SplitAcross(a, t1, '\n');
  }

  /** Strings with a common prefix are equal exactly when what follows it is. */
  lemma AppendCancel(h: string, x: string, y: string)
    ensures h + x == h + y <==> x == y
  {
    assert x == (h + x)[|h|..];
    assert y == (h + y)[|h|..];
  }

  /** Splitting a join gives back the pieces, as long as no piece holds the separator. */
  lemma {:induction false} SplitJoin(parts: seq<string>, sep: char)
    requires |parts| >= 1
    requires forall k :: 0 <= k < |parts| ==> sep !in parts[k]
    ensures Split(Join(parts, [sep]), sep) == parts
    decreases |parts|
  {
    if |parts| == 1 {
      SplitWithoutSep(parts[0], sep);
    } else {
      SplitJoin(parts[1..], sep);
      SplitAcross(parts[0], Join(parts[1..], [sep]), sep);
      assert [parts[0]] + parts[1..] == parts;
    }
  }

  /** A non-empty join ends with its last piece. */
  lemma {:induction false} JoinEndsWithLast(parts: seq<string>, sep: string)
    requires |parts| >= 1
    ensures var j := Join(parts, sep);
      |parts[|parts| - 1]| <= |j| && j[|j| - |parts[|parts| - 1]|..] == parts[|parts| - 1]
    decreases |parts|
  {
    if |parts| > 1 {
      JoinEndsWithLast(parts[1..], sep);
      var tail := Join(parts[1..], sep);
      var last := parts[|parts| - 1];
      assert parts[1..][|parts| - 2] == last;
      var j := parts[0] + sep + tail;
      assert j[|j| - |last|..] == tail[|tail| - |last|..];
    }
  }
}

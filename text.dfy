/**
  String vocabulary for stating what the formatted texts hold: substring
  search, character counting and splitting at a separator.
 */
module Text {

  /** t occurs in s starting at offset k. */
  predicate OccursAt(s: string, t: string, k: int)
  {
    0 <= k <= |s| - |t| && s[k..k + |t|] == t
  }

  /** t occurs in s at some offset, as a successful std::string::find reports. */
  predicate Contains(s: string, t: string)
  {
    exists k :: 0 <= k <= |s| - |t| && OccursAt(s, t, k)
  }

  lemma ContainsInfix(a: string, t: string, b: string)
    ensures Contains(a + t + b, t)
  {
    var s := a + t + b;
    assert OccursAt(s, t, |a|);
  }

  lemma ContainsTransitive(s: string, t: string, u: string)
    requires Contains(s, t) && Contains(t, u)
    ensures Contains(s, u)
  {
    var k :| 0 <= k <= |s| - |t| && OccursAt(s, t, k);
    var j :| 0 <= j <= |t| - |u| && OccursAt(t, u, j);
    forall m | 0 <= m < |u|
      ensures s[k + j + m] == u[m]
    {
      assert u[m] == t[j..j + |u|][m] == t[j + m];
      assert t[j + m] == s[k..k + |t|][j + m] == s[k + j + m];
    }
    assert s[k + j..k + j + |u|] == u;
    assert OccursAt(s, u, k + j);
  }

  lemma ContainsAfter(a: string, b: string, t: string)
    requires Contains(b, t)
    ensures Contains(a + b, t)
  {
    var k :| 0 <= k <= |b| - |t| && OccursAt(b, t, k);
    assert (a + b)[|a| + k..|a| + k + |t|] == b[k..k + |t|];
    assert OccursAt(a + b, t, |a| + k);
  }

  /** A text holding t followed by rest holds t. */
  lemma ContainsWithoutSuffix(s: string, t: string, rest: string)
    requires Contains(s, t + rest)
    ensures Contains(s, t)
  {
    ContainsInfix("", t, rest);
    assert "" + t + rest == t + rest;
    ContainsTransitive(s, t + rest, t);
  }

  /** A text that starts with t followed by rest holds t. */
  lemma ContainsPrefix(s: string, t: string, rest: string)
    requires t + rest <= s
    ensures Contains(s, t)
  {
    assert OccursAt(s, t, 0);
  }

  /** A text that starts with a followed by t holds t. */
  lemma ContainsEndOfPrefix(s: string, a: string, t: string)
    requires a + t <= s
    ensures Contains(s, t)
  {
    assert s[|a|..|a| + |t|] == (a + t)[|a|..];
    assert OccursAt(s, t, |a|);
  }

  lemma AppendAssociative(a: string, b: string, c: string)
    ensures (a + b) + c == a + (b + c)
  {
  }

  /** The number of occurrences of c in s. */
  function Count(s: string, c: char): nat
  {
    if s == [] then 0 else Count(s[..|s| - 1], c) + (if s[|s| - 1] == c then 1 else 0)
  }

  lemma {:induction false} CountConcat(a: string, b: string, c: char)
    ensures Count(a + b, c) == Count(a, c) + Count(b, c)
    decreases |b|
  {
    if b != [] {
      var b' := b[..|b| - 1];
      assert (a + b)[..|a + b| - 1] == a + b';
      CountConcat(a, b', c);
    } else {
      assert a + b == a;
    }
  }

  lemma {:induction false} CountAbsent(s: string, c: char)
    requires c !in s
    ensures Count(s, c) == 0
    decreases |s|
  {
    if s != [] {
      CountAbsent(s[..|s| - 1], c);
    }
  }

  /** A line whose body holds no newline has exactly one newline, its terminator. */
  lemma CountTerminatedLine(body: string)
    requires '\n' !in body
    ensures Count(body + "\n", '\n') == 1
  {
    CountAbsent(body, '\n');
    CountConcat(body, "\n", '\n');
  }

  /** The fields of s between occurrences of sep; a string without sep is one field. */
  function Split(s: string, sep: char): (fields: seq<string>)
    ensures |fields| > 0
  {
    if s == [] then [""]
    else
      var init, last := Split(s[..|s| - 1], sep), s[|s| - 1];
      if last == sep then init + [""]
      else init[..|init| - 1] + [init[|init| - 1] + [last]]
  }

  lemma {:induction false} SplitNoSeparator(s: string, sep: char)
    requires sep !in s
    ensures Split(s, sep) == [s]
    decreases |s|
  {
    if s != [] {
      SplitNoSeparator(s[..|s| - 1], sep);
      assert s[..|s| - 1] + [s[|s| - 1]] == s;
    }
  }

  /** Appending a separator and a separator-free field appends exactly that field. */
  lemma {:induction false} SplitAppendField(a: string, sep: char, b: string)
    requires sep !in b
    ensures Split(a + [sep] + b, sep) == Split(a, sep) + [b]
    decreases |b|
  {
    var s := a + [sep] + b;
    if b == [] {
      assert s[..|s| - 1] == a;
    } else {
      var b' := b[..|b| - 1];
      assert s[..|s| - 1] == a + [sep] + b';
      SplitAppendField(a, sep, b');
      assert b' + [b[|b| - 1]] == b;
    }
  }

  /** Three separator-free fields joined by sep split back into those three. */
  lemma SplitThreeFields(x: string, y: string, z: string, sep: char)
    requires sep !in x && sep !in y && sep !in z
    ensures Split(x + [sep] + y + [sep] + z, sep) == [x, y, z]
  {
    SplitNoSeparator(x, sep);
    SplitAppendField(x, sep, y);
    SplitAppendField(x + [sep] + y, sep, z);
  }
}

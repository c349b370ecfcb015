/** The pieces of java.lang.String and StringBuilder behaviour the automaton relies on. */
module Text {
  import opened Wrappers
  import opened Errors

  /** t is a suffix of s. */
  predicate IsSuffix(t: string, s: string) {
    |t| <= |s| && s[|s| - |t|..] == t
  }

  /** No character of s is in skip. */
  predicate Avoids(s: string, skip: set<char>) {
    forall i :: 0 <= i < |s| ==> s[i] !in skip
  }

  /** The leading half of String.trim(): drops every leading character whose code is at most U+0020. */
  function TrimStart(s: string): (r: string)
    ensures IsSuffix(r, s)
    ensures r == [] || r[0] > ' '
    ensures forall i :: 0 <= i < |s| - |r| ==> s[i] <= ' '
  {
    if s != [] && s[0] <= ' ' then TrimStart(s[1..]) else s
  }

  /** The trailing half of String.trim(): drops every trailing character whose code is at most U+0020. */
  function TrimEnd(s: string): (r: string)
    ensures r <= s
    ensures r == [] || r[|r| - 1] > ' '
    ensures forall i :: |r| <= i < |s| ==> s[i] <= ' '
  {
    if s != [] && s[|s| - 1] <= ' ' then TrimEnd(s[..|s| - 1]) else s
  }

  /** String.trim(). */
  function Trim(s: string): (r: string) {
    TrimEnd(TrimStart(s))
  }

  /** keyword.trim().isEmpty() */
  predicate IsBlank(s: string) {
    Trim(s) == []
  }

  /** A string is blank exactly when every one of its characters is a control character or a space. */
  lemma BlankIffControlOrSpace(s: string)
    ensures IsBlank(s) <==> forall i :: 0 <= i < |s| ==> s[i] <= ' '
  {
    var t := TrimStart(s);
    if IsBlank(s) {
      // TrimEnd(t) is empty, so t is either empty or starts with a character above U+0020 that TrimEnd keeps
      assert t == [];
    } else {
      var r := Trim(s);
      assert r[0] == t[0] == s[|s| - |t|];
    }
  }

  /** Concatenation regroups freely. */
  lemma AppendAssociative(a: string, b: string, c: string)
    ensures (a + b) + c == a + (b + c)
  {
  }

  /** The characters of s that are not in skip, in their original order. */
  function Filter(skip: set<char>, s: string): (r: string)
    ensures |r| <= |s|
    ensures Avoids(r, skip)
  {
    if s == [] then []
    else Filter(skip, s[..|s| - 1]) + (if s[|s| - 1] in skip then [] else [s[|s| - 1]])
  }

  /** Filtering distributes over concatenation. */
  lemma {:induction false} FilterAppend(skip: set<char>, a: string, b: string)
    ensures Filter(skip, a + b) == Filter(skip, a) + Filter(skip, b)
    decreases |b|
  {
    if b == [] {
      assert a + b == a;
    } else {
      var b' := b[..|b| - 1];
      assert (a + b)[..|a + b| - 1] == a + b';
      FilterAppend(skip, a, b');
    }
  }

  /** Filtering a text that holds no skip character leaves it as it is. */
  lemma {:induction false} FilterOfAvoiding(skip: set<char>, s: string)
    requires Avoids(s, skip)
    ensures Filter(skip, s) == s
    decreases |s|
  {
    if s != [] {
      FilterOfAvoiding(skip, s[..|s| - 1]);
    }
  }

  /** Looking at the first character of a text: it is dropped when it is a skip character. */
  lemma FilterCons(skip: set<char>, s: string)
    requires s != []
    ensures Filter(skip, s) == (if s[0] in skip then [] else [s[0]]) + Filter(skip, s[1..])
  {
    assert s == [s[0]] + s[1..];
    FilterAppend(skip, [s[0]], s[1..]);
    assert Filter(skip, [s[0]]) == Filter(skip, []) + (if s[0] in skip then [] else [s[0]]);
  }

  /** Filtering the text from position i on: the character at i, unless it is skipped, followed by
      the filtered text after it. */
  lemma FilterFrom(skip: set<char>, t: string, i: nat)
    requires i < |t|
    ensures t[i] in skip ==> Filter(skip, t[i..]) == Filter(skip, t[i + 1..])
    ensures t[i] !in skip ==> Filter(skip, t[i..]) == [t[i]] + Filter(skip, t[i + 1..])
  {
    FilterCons(skip, t[i..]);
    assert t[i..][0] == t[i] && t[i..][1..] == t[i + 1..];
  }

  /** Filtering the text up to position i + 1: the filtered text up to i, followed by the character at
      i unless it is skipped. */
  lemma FilterUpTo(skip: set<char>, t: string, i: nat)
    requires i < |t|
    ensures t[i] in skip ==> Filter(skip, t[..i + 1]) == Filter(skip, t[..i])
    ensures t[i] !in skip ==> Filter(skip, t[..i + 1]) == Filter(skip, t[..i]) + [t[i]]
  {
    assert t[..i + 1] == t[..i] + [t[i]];
    FilterSnoc(skip, t[..i], t[i]);
  }

  /** Looking at the last character of a text (the definition, restated for callers). */
  lemma FilterSnoc(skip: set<char>, s: string, c: char)
    ensures Filter(skip, s + [c]) == Filter(skip, s) + (if c in skip then [] else [c])
  {
    assert (s + [c])[..|s + [c]| - 1] == s;
  }

  /** StringBuilder.setLength(n): negative lengths throw; a shorter length truncates; a longer one pads
      with the character U+0000. */
  function SetLength(buf: string, n: int): (r: Result<string, Error>)
    ensures r.Failure? <==> n < 0
    ensures r.Failure? ==> r.error == StringIndexOutOfBounds(n)
    ensures r.Success? ==> |r.value| == n
    ensures r.Success? && n <= |buf| ==> r.value == buf[..n]
    ensures r.Success? && n > |buf| ==> buf <= r.value && forall i :: |buf| <= i < n ==> r.value[i] == '\0'
  {
    if n < 0 then Failure(StringIndexOutOfBounds(n))
    else if n <= |buf| then Success(buf[..n])
    else Success(buf + seq(n - |buf|, _ => '\0'))
  }
}

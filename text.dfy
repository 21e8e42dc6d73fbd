/** The Python string operations the core relies on (`str.strip`, `str.lower`, `str.split`,
    `str.join`, `str.find`, `str.replace` and slicing), restricted to ASCII where Python's
    behaviour depends on Unicode tables. */
module Text {

  /** `str.isspace` on ASCII: space, the controls \t \n \v \f \r and the separators 0x1C-0x1F. */
  predicate IsSpace(c: char) {
    c == ' ' || ('\t' <= c <= '\r') || ('\U{1C}' <= c <= '\U{1F}')
  }

  /** `str.lstrip()`: drops the leading whitespace. */
  function StripLeft(s: string): string {
    if s != [] && IsSpace(s[0]) then StripLeft(s[1..]) else s
  }

  /** `str.rstrip()`: drops the trailing whitespace. */
  function StripRight(s: string): string {
    if s != [] && IsSpace(s[|s| - 1]) then StripRight(s[..|s| - 1]) else s
  }

  /** `str.strip()`. */
  function Strip(s: string): string {
    StripRight(StripLeft(s))
  }

  /** `lstrip` removes a prefix made of whitespace and nothing more: what is left is a suffix
      that does not start with whitespace. */
  lemma {:induction false} StripLeftSpec(s: string)
    ensures |StripLeft(s)| <= |s| && StripLeft(s) == s[|s| - |StripLeft(s)|..]
    ensures forall i :: 0 <= i < |s| - |StripLeft(s)| ==> IsSpace(s[i])
    ensures StripLeft(s) != [] ==> !IsSpace(StripLeft(s)[0])
  {
    if s != [] && IsSpace(s[0]) {
      StripLeftSpec(s[1..]);
      forall i | 0 <= i < |s| - |StripLeft(s)| ensures IsSpace(s[i]) {
        if i > 0 {
          assert s[i] == s[1..][i - 1];
        }
      }
    }
  }

  /** `rstrip` removes a suffix made of whitespace and nothing more: what is left is a prefix
      that does not end with whitespace. */
  lemma {:induction false} StripRightSpec(s: string)
    ensures |StripRight(s)| <= |s| && StripRight(s) == s[..|StripRight(s)|]
    ensures forall i :: |StripRight(s)| <= i < |s| ==> IsSpace(s[i])
    ensures StripRight(s) != [] ==> !IsSpace(StripRight(s)[|StripRight(s)| - 1])
  {
    if s != [] && IsSpace(s[|s| - 1]) {
      StripRightSpec(s[..|s| - 1]);
      forall i | |StripRight(s)| <= i < |s| ensures IsSpace(s[i]) {
        if i < |s| - 1 {
          assert s[i] == s[..|s| - 1][i];
        }
      }
    }
  }

  /** Stripping keeps a last character that is not whitespace, and a text with no whitespace. */
  lemma StripKeepsEnds(s: string)
    ensures |s| > 0 && !IsSpace(s[|s| - 1]) ==> |Strip(s)| > 0 && Strip(s)[|Strip(s)| - 1] == s[|s| - 1]
    ensures (forall i :: 0 <= i < |s| ==> !IsSpace(s[i])) ==> Strip(s) == s
  {
    var l := StripLeft(s);
    StripLeftSpec(s);
    StripRightSpec(l);
    if |s| > 0 && !IsSpace(s[|s| - 1]) {
      assert |l| > 0;
      assert l[|l| - 1] == s[|s| - 1];
    }
    if (forall i :: 0 <= i < |s| ==> !IsSpace(s[i])) && |s| > 0 {
      assert !IsSpace(s[0]);
      assert l == s;
      assert !IsSpace(l[|l| - 1]);
    }
  }

  /** Every character of a stripped text comes from the text. */
  lemma StripChars(s: string)
    ensures forall c :: c in Strip(s) ==> c in s
  {
    var l := StripLeft(s);
    var r := StripRight(l);
    StripLeftSpec(s);
    StripRightSpec(l);
    forall c | c in r ensures c in s {
      var i :| 0 <= i < |r| && r[i] == c;
      assert r[i] == l[i] == s[|s| - |l| + i];
    }
  }

  /** `str.lower()` on one ASCII character. */
  function LowerChar(c: char): char {
    if 'A' <= c <= 'Z' then (c as int + 32) as char else c
  }

  /** `str.lower()`: each capital becomes its own lower-case letter, every other character
      stays as it is, so no upper-case letter is left. */
  function Lower(s: string): (r: string)
    ensures |r| == |s|
    ensures forall i :: 0 <= i < |r| ==> !('A' <= r[i] <= 'Z')
    ensures forall i :: 0 <= i < |s| ==>
      if 'A' <= s[i] <= 'Z' then r[i] as int == s[i] as int + 32 else r[i] == s[i]
  {
    seq(|s|, i requires 0 <= i < |s| => LowerChar(s[i]))
  }

  /** `s.split(sep)` for a one-character separator: always at least one piece, and no piece
      holds the separator. */
  function Split(s: string, sep: char): (r: seq<string>)
    ensures |r| >= 1
  {
    if s == [] then [""]
    else
      var rest := Split(s[1..], sep);
      if s[0] == sep then [""] + rest else [[s[0]] + rest[0]] + rest[1..]
  }

  /** No piece of a split contains the separator. */
  lemma {:induction false} SplitSeparatorFree(s: string, sep: char)
    ensures forall i :: 0 <= i < |Split(s, sep)| ==> sep !in Split(s, sep)[i]
  {
    if s != [] {
      SplitSeparatorFree(s[1..], sep);
    }
  }

  /** `sep.join(xs)`. */
  function Join(xs: seq<string>, sep: char): string {
    if xs == [] then ""
    else if |xs| == 1 then xs[0]
    else xs[0] + [sep] + Join(xs[1..], sep)
  }

  lemma {:induction false} SplitPrefix(x: string, t: string, sep: char)
    requires sep !in x
    ensures Split(x + t, sep) == [x + Split(t, sep)[0]] + Split(t, sep)[1..]
  {
    if x != [] {
      assert (x + t)[1..] == x[1..] + t;
      SplitPrefix(x[1..], t, sep);
      assert [x[0]] + (x[1..] + Split(t, sep)[0]) == x + Split(t, sep)[0];
    } else {
      var r := Split(t, sep);
      assert x + t == t && x + r[0] == r[0];
      assert r == [r[0]] + r[1..];
    }
  }

  /** Splitting a join gives back the pieces, when they are separator-free and there is at
      least one (the empty list joins to "", which splits to [""]). */
  lemma {:induction false} SplitJoin(xs: seq<string>, sep: char)
    requires |xs| >= 1
    requires forall i :: 0 <= i < |xs| ==> sep !in xs[i]
    ensures Split(Join(xs, sep), sep) == xs
  {
    if |xs| == 1 {
      SplitPrefix(xs[0], "", sep);
      assert xs[0] + "" == xs[0];
    } else {
      var tail := Join(xs[1..], sep);
      SplitJoin(xs[1..], sep);
      assert xs[0] + [sep] + tail == xs[0] + ([sep] + tail);
      SplitPrefix(xs[0], [sep] + tail, sep);
      assert ([sep] + tail)[1..] == tail;
      assert Split([sep] + tail, sep) == [""] + xs[1..];
      assert xs[0] + "" == xs[0];
    }
  }

  /** Joining the pieces of a split gives back the text. */
  lemma JoinCons(x: string, xs: seq<string>, sep: char)
    requires xs != []
    ensures Join([x] + xs, sep) == x + [sep] + Join(xs, sep)
  {
    assert ([x] + xs)[1..] == xs;
  }

  lemma {:induction false} JoinSplit(s: string, sep: char)
    ensures Join(Split(s, sep), sep) == s
  {
    if s != [] {
      JoinSplit(s[1..], sep);
      if s[0] == sep {
        JoinSplitSeparator(s, sep);
      } else {
        JoinSplitOther(s, sep);
      }
    }
  }

  lemma JoinSplitSeparator(s: string, sep: char)
    requires s != [] && s[0] == sep
    requires Join(Split(s[1..], sep), sep) == s[1..]
    ensures Join(Split(s, sep), sep) == s
  {
    var rest := Split(s[1..], sep);
    assert Split(s, sep) == [""] + rest;
    JoinCons("", rest, sep);
    assert s == [s[0]] + s[1..];
  }

  lemma JoinSplitOther(s: string, sep: char)
    requires s != [] && s[0] != sep
    requires Join(Split(s[1..], sep), sep) == s[1..]
    ensures Join(Split(s, sep), sep) == s
  {
    var rest := Split(s[1..], sep);
    assert s == [s[0]] + s[1..];
    if |rest| == 1 {
      assert Split(s, sep) == [[s[0]] + rest[0]];
    } else {
      assert Split(s, sep) == [[s[0]] + rest[0]] + rest[1..];
      assert rest == [rest[0]] + rest[1..];
      JoinCons(rest[0], rest[1..], sep);
      JoinCons([s[0]] + rest[0], rest[1..], sep);
    }
  }

  /** `s[i:i+len(m)] == m`. */
  predicate OccursAt(s: string, m: string, i: nat) {
    i + |m| <= |s| && s[i..i + |m|] == m
  }

  function FindFrom(s: string, m: string, i: nat): (r: int)
    requires i <= |s|
    ensures r == -1 || (i <= r && OccursAt(s, m, r))
    ensures r == -1 ==> forall j :: i <= j ==> !OccursAt(s, m, j)
    ensures r != -1 ==> forall j :: i <= j < r ==> !OccursAt(s, m, j)
    decreases |s| - i
  {
    if i + |m| > |s| then -1
    else if s[i..i + |m|] == m then i
    else FindFrom(s, m, i + 1)
  }

  /** `s.find(m)`: the first position of `m` in `s`, or -1 when it does not occur. */
  function Find(s: string, m: string): (r: int)
    ensures r >= -1
    ensures r == -1 <==> forall j :: !OccursAt(s, m, j)
    ensures r >= 0 ==> OccursAt(s, m, r) && forall j :: 0 <= j < r ==> !OccursAt(s, m, j)
  {
    FindFrom(s, m, 0)
  }

  /** `s[k:]` for a non-negative `k` (empty when `k` is past the end). */
  function Drop(s: string, k: nat): string {
    if k <= |s| then s[k..] else ""
  }

  /** `s.replace(c, '')` for a one-character `c`. */
  function RemoveAll(s: string, c: char): (r: string)
    ensures c !in r
    ensures forall d :: d != c ==> multiset(r)[d] == multiset(s)[d]
  {
    if s == [] then ""
    else
      var rest := RemoveAll(s[1..], c);
      assert s == [s[0]] + s[1..];
      if s[0] == c then rest else [s[0]] + rest
  }

  /** `replace` keeps the order of what it keeps: it works character by character, so it
      distributes over concatenation, dropping a lone `c` and keeping any other character. */
  lemma {:induction false} RemoveAllAppend(a: string, b: string, c: char)
    ensures RemoveAll(a + b, c) == RemoveAll(a, c) + RemoveAll(b, c)
    ensures |a| == 1 ==> RemoveAll(a, c) == (if a[0] == c then "" else a)
  {
    if a == [] {
      assert a + b == b;
    } else {
      assert (a + b)[0] == a[0] && (a + b)[1..] == a[1..] + b;
      RemoveAllAppend(a[1..], b, c);
      if a[0] != c {
        assert RemoveAll(a + b, c) == [a[0]] + RemoveAll(a[1..] + b, c);
      }
    }
  }
}

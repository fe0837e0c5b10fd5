/** String helpers shared by the models: Python's `str.split()`, `find`, `lower`
    and `startswith` on byte strings, and `''.join`. */
module Text {

  /** The characters Python 2's `str.split()` and `str.strip()` treat as whitespace. */
  predicate IsSpace(c: char) {
    c == ' ' || c == '\t' || c == '\n' || c == '\r' || c == 11 as char || c == 12 as char
  }

  predicate NoSpace(s: string) {
    forall i :: 0 <= i < |s| ==> !IsSpace(s[i])
  }

  predicate StartsWith(s: string, prefix: string) {
    |prefix| <= |s| && s[..|prefix|] == prefix
  }

  /** `sub in s` for strings. */
  predicate Contains(s: string, sub: string)
    decreases |s|
  {
    StartsWith(s, sub) || (s != [] && Contains(s[1..], sub))
  }

  /** `''.join(parts)`. */
  function Concat(parts: seq<string>): (r: string)
    ensures parts == [] ==> r == []
  {
    if parts == [] then [] else parts[0] + Concat(parts[1..])
  }

  lemma {:induction false} ConcatAppend(a: seq<string>, b: seq<string>)
    ensures Concat(a + b) == Concat(a) + Concat(b)
  {
    if a == [] {
      assert a + b == b;
    } else {
      assert (a + b)[1..] == a[1..] + b;
      ConcatAppend(a[1..], b);
    }
  }

  /** `s.find(c)`: the index of the first `c`, or -1 when there is none. */
  function Find(s: string, c: char): (r: int)
    ensures -1 <= r < |s|
    ensures r >= 0 ==> s[r] == c
  {
    if s == [] then -1
    else if s[0] == c then 0
    else
      var k := Find(s[1..], c);
      if k == -1 then -1 else k + 1
  }

  /** `find` gives -1 exactly when `c` is absent, and otherwise its first position. */
  lemma {:induction false} FindSpec(s: string, c: char)
    ensures Find(s, c) == -1 <==> c !in s
    ensures Find(s, c) >= 0 ==> c !in s[..Find(s, c)]
  {
    if s != [] && s[0] != c {
      FindSpec(s[1..], c);
      var k := Find(s[1..], c);
      if k >= 0 {
        assert s[..k + 1] == [s[0]] + s[1..][..k];
      }
      assert c in s[1..] ==> c in s;
      assert c in s ==> c in s[1..] by {
        if c in s {
          var j :| 0 <= j < |s| && s[j] == c;
          assert s[1..][j - 1] == c;
        }
      }
    }
  }

  /** A `c` at `j` with none before it is what `find` returns. */
  lemma {:induction false} FindFirst(s: string, c: char, j: int)
    requires 0 <= j < |s| && s[j] == c && c !in s[..j]
    ensures Find(s, c) == j
  {
    if j > 0 {
      assert s[0] == s[..j][0];
      assert s[1..][j - 1] == c;
      assert s[1..][..j - 1] == s[..j][1..];
      FindFirst(s[1..], c, j - 1);
    }
  }

  /** ASCII lower-casing, which is what Python 2's `str.lower()` does on byte strings. */
  function LowerChar(c: char): (r: char)
    ensures 'A' <= c <= 'Z' ==> 'a' <= r <= 'z'
    ensures !('A' <= c <= 'Z') ==> r == c
  {
    if 'A' <= c <= 'Z' then (c as int - 'A' as int + 'a' as int) as char else c
  }

  function Lower(s: string): (r: string)
    ensures |r| == |s|
    ensures forall i :: 0 <= i < |s| ==> r[i] == LowerChar(s[i])
  {
    if s == [] then [] else [LowerChar(s[0])] + Lower(s[1..])
  }

  /** Length of the longest prefix of `s` without whitespace. */
  function TokenLength(s: string): (n: nat)
    ensures n <= |s| && NoSpace(s[..n])
    ensures n < |s| ==> IsSpace(s[n])
  {
    if s == [] || IsSpace(s[0]) then 0
    else
      var k := TokenLength(s[1..]);
      assert s[..k + 1] == [s[0]] + s[1..][..k];
      k + 1
  }

  /** Python's `s.split()` with no argument: the maximal runs of non-whitespace, in order. */
  function Split(s: string): (tokens: seq<string>)
    ensures forall i :: 0 <= i < |tokens| ==> tokens[i] != [] && NoSpace(tokens[i])
    decreases |s|
  {
    if s == [] then []
    else if IsSpace(s[0]) then Split(s[1..])
    else
      var n := TokenLength(s);
      [s[..n]] + Split(s[n..])
  }

  /** `' '.join(tokens)`. */
  function JoinSpace(tokens: seq<string>): string {
    if tokens == [] then []
    else if |tokens| == 1 then tokens[0]
    else tokens[0] + " " + JoinSpace(tokens[1..])
  }

  lemma {:induction false} TokenLengthOfWord(w: string, rest: string)
    requires w != [] && NoSpace(w)
    requires rest == [] || IsSpace(rest[0])
    ensures TokenLength(w + rest) == |w|
  {
    if |w| > 1 {
      assert (w + rest)[1..] == w[1..] + rest;
      TokenLengthOfWord(w[1..], rest);
    } else {
      assert (w + rest)[1..] == rest;
    }
  }

  /** Splitting a space-joined list of words gives the words back. */
  lemma {:induction false} SplitJoinSpace(tokens: seq<string>)
    requires forall i :: 0 <= i < |tokens| ==> tokens[i] != [] && NoSpace(tokens[i])
    ensures Split(JoinSpace(tokens)) == tokens
  {
    if tokens == [] {
    } else if |tokens| == 1 {
      var w := tokens[0];
      TokenLengthOfWord(w, []);
      assert w + [] == w;
      assert w[|w|..] == [];
    } else {
      var w := tokens[0];
      var rest := " " + JoinSpace(tokens[1..]);
      var s := w + rest;
      assert JoinSpace(tokens) == s;
      TokenLengthOfWord(w, rest);
      assert s[..|w|] == w;
      assert s[|w|..] == rest;
      assert rest[1..] == JoinSpace(tokens[1..]);
      SplitJoinSpace(tokens[1..]);
    }
  }
}

/** The string and line transforms of the Markdown extensions: HTML escaping of
    plain text, the relative-link rule, joining of include-macro lines, pattern
    folding over source lines, artifact-link bracketing, source-reference links
    and the content wrapper. Regular expressions are abstracted: a line predicate
    or a substitution function stands for each compiled pattern. */
module Markdown {
  import opened Wrappers
  import opened Text

  // ------------------------------------------------------------- escaping

  /** `s.replace(c, t)` for a one-character needle. */
  function ReplaceChar(s: string, c: char, t: string): (r: string)
    ensures |t| >= 1 ==> |r| >= |s|
  {
    if s == [] then [] else (if s[0] == c then t else [s[0]]) + ReplaceChar(s[1..], c, t)
  }

  lemma {:induction false} ReplaceAppend(a: string, b: string, c: char, t: string)
    ensures ReplaceChar(a + b, c, t) == ReplaceChar(a, c, t) + ReplaceChar(b, c, t)
  {
    if a == [] {
      assert a + b == b;
    } else {
      assert (a + b)[0] == a[0];
      assert (a + b)[1..] == a[1..] + b;
      ReplaceAppend(a[1..], b, c, t);
    }
  }

  lemma {:induction false} ReplaceAbsent(s: string, c: char, t: string)
    requires c !in s
    ensures ReplaceChar(s, c, t) == s
  {
    if s != [] {
      assert c !in s[1..];
      ReplaceAbsent(s[1..], c, t);
    }
  }

  /** A replacement that does not reintroduce `c` removes every `c`. */
  lemma {:induction false} ReplaceRemoves(s: string, c: char, t: string)
    requires c !in t
    ensures c !in ReplaceChar(s, c, t)
  {
    if s != [] {
      ReplaceRemoves(s[1..], c, t);
    }
  }

  /** A character in neither `s` nor `t` is not in `s` with `c` replaced by `t`. */
  lemma {:induction false} ReplaceKeepsAbsent(s: string, c: char, t: string, x: char)
    requires x !in s && x !in t
    ensures x !in ReplaceChar(s, c, t)
  {
    if s != [] {
      assert x !in s[1..];
      ReplaceKeepsAbsent(s[1..], c, t, x);
    }
  }

  /** `PlainTextPreprocessor._escape`: four chained replacements, `&` first. */
  function Escape(txt: string): (r: string)
    ensures |r| >= |txt|
  {
    ReplaceChar(ReplaceChar(ReplaceChar(ReplaceChar(txt, '&', "&amp;"), '<', "&lt;"), '>', "&gt;"), '"', "&quot;")
  }

  /** The entity of one character: the reference definition of escaping. */
  function EscapeChar(c: char): string {
    if c == '&' then "&amp;"
    else if c == '<' then "&lt;"
    else if c == '>' then "&gt;"
    else if c == '"' then "&quot;"
    else [c]
  }

  function EscapeEach(s: string): string {
    if s == [] then [] else EscapeChar(s[0]) + EscapeEach(s[1..])
  }

  lemma EscapeAppend(a: string, b: string)
    ensures Escape(a + b) == Escape(a) + Escape(b)
  {
    var a1, b1 := ReplaceChar(a, '&', "&amp;"), ReplaceChar(b, '&', "&amp;");
    ReplaceAppend(a, b, '&', "&amp;");
    var a2, b2 := ReplaceChar(a1, '<', "&lt;"), ReplaceChar(b1, '<', "&lt;");
    ReplaceAppend(a1, b1, '<', "&lt;");
    var a3, b3 := ReplaceChar(a2, '>', "&gt;"), ReplaceChar(b2, '>', "&gt;");
    ReplaceAppend(a2, b2, '>', "&gt;");
    ReplaceAppend(a3, b3, '"', "&quot;");
  }

  lemma ReplaceSingle(c: char, d: char, t: string)
    ensures ReplaceChar([c], d, t) == if c == d then t else [c]
  {
    assert [c][1..] == [];
    if c == d {
      assert t + [] == t;
    } else {
      assert [c] + [] == [c];
    }
  }

  /** The entities hold none of the characters replaced after them. */
  lemma EntitiesFree()
    ensures '<' !in "&amp;" && '>' !in "&amp;" && '"' !in "&amp;"
    ensures '>' !in "&lt;" && '"' !in "&lt;" && '"' !in "&gt;"
  {
  }

  lemma EscapeAmp()
    ensures Escape("&") == "&amp;"
  {
    EntitiesFree();
    ReplaceSingle('&', '&', "&amp;");
    ReplaceAbsent("&amp;", '<', "&lt;");
    ReplaceAbsent("&amp;", '>', "&gt;");
    ReplaceAbsent("&amp;", '"', "&quot;");
  }

  lemma EscapeLt()
    ensures Escape("<") == "&lt;"
  {
    EntitiesFree();
    ReplaceSingle('<', '&', "&amp;");
    ReplaceSingle('<', '<', "&lt;");
    ReplaceAbsent("&lt;", '>', "&gt;");
    ReplaceAbsent("&lt;", '"', "&quot;");
  }

  lemma EscapeGt()
    ensures Escape(">") == "&gt;"
  {
    EntitiesFree();
    ReplaceSingle('>', '&', "&amp;");
    ReplaceSingle('>', '<', "&lt;");
    ReplaceSingle('>', '>', "&gt;");
    ReplaceAbsent("&gt;", '"', "&quot;");
  }

  lemma EscapeOther(c: char)
    requires c != '&' && c != '<' && c != '>'
    ensures Escape([c]) == if c == '"' then "&quot;" else [c]
  {
    ReplaceSingle(c, '&', "&amp;");
    ReplaceSingle(c, '<', "&lt;");
    ReplaceSingle(c, '>', "&gt;");
    ReplaceSingle(c, '"', "&quot;");
  }

  lemma EscapeOne(c: char)
    ensures Escape([c]) == EscapeChar(c)
  {
    if c == '&' {
      EscapeAmp();
    } else if c == '<' {
      EscapeLt();
    } else if c == '>' {
      EscapeGt();
    } else {
      EscapeOther(c);
    }
  }

  /** Replacing `&` first means no entity is escaped a second time: the chain is
      the same as escaping every character on its own. */
  lemma {:induction false} EscapeIsPerCharacter(s: string)
    ensures Escape(s) == EscapeEach(s)
  {
    if s != [] {
      assert s == [s[0]] + s[1..];
      EscapeAppend([s[0]], s[1..]);
      EscapeOne(s[0]);
      EscapeIsPerCharacter(s[1..]);
    }
  }

  /** Escaped text holds no `<`, `>` or `"`. */
  lemma EscapeSafe(txt: string)
    ensures '<' !in Escape(txt) && '>' !in Escape(txt) && '"' !in Escape(txt)
  {
    var s1 := ReplaceChar(txt, '&', "&amp;");
    var s2 := ReplaceChar(s1, '<', "&lt;");
    var s3 := ReplaceChar(s2, '>', "&gt;");
    ReplaceRemoves(s1, '<', "&lt;");
    ReplaceRemoves(s2, '>', "&gt;");
    ReplaceRemoves(s3, '"', "&quot;");
    ReplaceKeepsAbsent(s2, '>', "&gt;", '<');
    ReplaceKeepsAbsent(s3, '"', "&quot;", '<');
    ReplaceKeepsAbsent(s3, '"', "&quot;", '>');
  }

  /** Reading the four entities back. */
  function Unescape(s: string): string
    decreases |s|
  {
    if s == [] then []
    else if StartsWith(s, "&amp;") then "&" + Unescape(s[5..])
    else if StartsWith(s, "&lt;") then "<" + Unescape(s[4..])
    else if StartsWith(s, "&gt;") then ">" + Unescape(s[4..])
    else if StartsWith(s, "&quot;") then "\"" + Unescape(s[6..])
    else [s[0]] + Unescape(s[1..])
  }

  /** A text that differs from `p` at position `i` does not start with `p`. */
  lemma NotStarting(s: string, p: string, i: nat)
    requires i < |p| && i < |s| && s[i] != p[i]
    ensures !StartsWith(s, p)
  {
    if |p| <= |s| {
      assert s[..|p|][i] == s[i];
    }
  }

  lemma Starting(p: string, rest: string)
    ensures StartsWith(p + rest, p) && (p + rest)[|p|..] == rest
  {
    assert (p + rest)[..|p|] == p;
  }

  lemma UnescapeOne(c: char, rest: string)
    ensures Unescape(EscapeChar(c) + rest) == [c] + Unescape(rest)
  {
    var e := EscapeChar(c);
    var s := e + rest;
    Starting(e, rest);
    if c == '&' {
    } else if c == '<' {
      NotStarting(s, "&amp;", 1);
    } else if c == '>' {
      NotStarting(s, "&amp;", 1);
      NotStarting(s, "&lt;", 1);
    } else if c == '"' {
      NotStarting(s, "&amp;", 1);
      NotStarting(s, "&lt;", 1);
      NotStarting(s, "&gt;", 1);
    } else {
      NotStarting(s, "&amp;", 0);
      NotStarting(s, "&lt;", 0);
      NotStarting(s, "&gt;", 0);
      NotStarting(s, "&quot;", 0);
    }
  }

  /** Escaping loses nothing: unescaping gives the text back. */
  lemma {:induction false} UnescapeEscape(txt: string)
    ensures Unescape(Escape(txt)) == txt
  {
    EscapeIsPerCharacter(txt);
    UnescapeEach(txt);
  }

  lemma {:induction false} UnescapeEach(s: string)
    ensures Unescape(EscapeEach(s)) == s
  {
    if s != [] {
      UnescapeOne(s[0], EscapeEach(s[1..]));
      UnescapeEach(s[1..]);
    }
  }

  // -------------------------------------------------------- relative links

  /** The values `_rewrite` keeps as they are: absolute, rooted, relative to
      the current directory, mail and fragment links. */
  predicate Kept(v: string) {
    Contains(v, "://") || StartsWith(v, "/") || StartsWith(v, ".") || StartsWith(v, "mailto:") || StartsWith(v, "#")
  }

  /** `RelativeLinkRewriter._rewrite` on the value of the attribute: a missing
      value stays missing, spaces become `%20`, and a value not kept is moved one
      level up with `../`. */
  function RewriteValue(val: Option<string>): (r: Option<string>)
    ensures r.None? <==> val.None?
    ensures r.Some? ==> ' ' !in r.value && Kept(r.value)
  {
    match val
    case None => None
    case Some(v) =>
      var w := if ' ' in v then ReplaceChar(v, ' ', "%20") else v;
      ReplaceRemoves(v, ' ', "%20");
      assert StartsWith("../" + w, ".") by { assert ("../" + w)[..1] == "."; }
      if Kept(w) then Some(w) else Some("../" + w)
  }

  /** A kept value without spaces comes back unchanged. */
  lemma RewriteKeeps(v: string)
    requires ' ' !in v && Kept(v)
    ensures RewriteValue(Some(v)) == Some(v)
  {
  }

  /** Any other value without spaces gains exactly the `../` prefix. */
  lemma RewriteRelative(v: string)
    requires ' ' !in v && !Kept(v)
    ensures RewriteValue(Some(v)) == Some("../" + v)
  {
  }

  /** Spaces are encoded before the rule is chosen: a value rewrites exactly as its
      space-encoded form does. */
  lemma RewriteSpaces(v: string)
    ensures ' ' !in ReplaceChar(v, ' ', "%20")
    ensures RewriteValue(Some(v)) == RewriteValue(Some(ReplaceChar(v, ' ', "%20")))
  {
    ReplaceRemoves(v, ' ', "%20");
    if ' ' !in v {
      ReplaceAbsent(v, ' ', "%20");
    }
  }

  /** Rewriting an attribute twice is rewriting it once. */
  lemma RewriteIdempotent(val: Option<string>)
    ensures RewriteValue(RewriteValue(val)) == RewriteValue(val)
  {
    if val.Some? {
      RewriteKeeps(RewriteValue(val).value);
    }
  }

  /** Whether `_rewrite` marks the tag `rel="nofollow"`: the rewritten value is
      an absolute URL that `nofollow` (the site's policy) accepts. */
  predicate MarksNofollow(attrs: map<string, string>, attr: string, nofollow: string -> bool) {
    attr in attrs &&
    var w := RewriteValue(Some(attrs[attr])).value;
    Contains(w, "://") && nofollow(w)
  }

  /** The whole of `_rewrite` on a tag's attributes. It is only applied to
      `href` and `src`, never to `rel`. */
  function RewriteTag(attrs: map<string, string>, attr: string, nofollow: string -> bool): (r: map<string, string>)
    requires attr != "rel"
    ensures attr !in attrs ==> r == attrs
    ensures attr in attrs ==> attr in r && Some(r[attr]) == RewriteValue(Some(attrs[attr]))
    ensures MarksNofollow(attrs, attr, nofollow) ==> "rel" in r && r["rel"] == "nofollow"
    ensures forall k :: k != attr && (k != "rel" || !MarksNofollow(attrs, attr, nofollow)) ==>
              (k in r <==> k in attrs) && (k in attrs ==> r[k] == attrs[k])
  {
    if attr !in attrs then attrs
    else
      var w := RewriteValue(Some(attrs[attr])).value;
      var tagged := attrs[attr := w];
      if Contains(w, "://") && nofollow(w) then tagged["rel" := "nofollow"] else tagged
  }

  // ------------------------------------------------------ include joining

  /** `ForgeMacroIncludePreprocessor.run` from a state with the include lines
      `buf` pending: include lines are collected, and a collected run is emitted
      as one line just before the next other line. Whatever is pending when the
      lines run out is not emitted. */
  function Joined(lines: seq<string>, buf: seq<string>, isInclude: string -> bool): (r: seq<string>)
    ensures |r| <= |lines| + (if buf != [] then 1 else 0)
  {
    if lines == [] then []
    else if isInclude(lines[0]) then Joined(lines[1..], buf + [lines[0]], isInclude)
    else (if buf != [] then [Concat(buf)] else []) + [lines[0]] + Joined(lines[1..], [], isInclude)
  }

  /** The join itself: a run of include lines followed by another line `l` is
      emitted as one line, joined onto whatever was pending, just before `l`. */
  lemma {:induction false} JoinRun(run: seq<string>, buf: seq<string>, l: string, rest: seq<string>, isInclude: string -> bool)
    requires forall k :: 0 <= k < |run| ==> isInclude(run[k])
    requires !isInclude(l)
    ensures Joined(run + [l] + rest, buf, isInclude) ==
            (if buf + run != [] then [Concat(buf + run)] else []) + [l] + Joined(rest, [], isInclude)
    decreases |run|
  {
    var lines := run + [l] + rest;
    if run == [] {
      assert lines == [l] + rest && lines[1..] == rest;
      assert buf + run == buf;
    } else {
      assert lines[0] == run[0] && lines[1..] == run[1..] + [l] + rest;
      JoinRun(run[1..], buf + [run[0]], l, rest, isInclude);
      assert buf + [run[0]] + run[1..] == buf + run;
    }
  }

  /** The run of include lines pending when the lines run out. */
  function Pending(lines: seq<string>, buf: seq<string>, isInclude: string -> bool): seq<string> {
    if lines == [] then buf
    else if isInclude(lines[0]) then Pending(lines[1..], buf + [lines[0]], isInclude)
    else Pending(lines[1..], [], isInclude)
  }

  /** The loop of `run`, with the include pattern as the predicate `isInclude`. */
  method JoinIncludes(lines: seq<string>, isInclude: string -> bool) returns (result: seq<string>)
    ensures result == Joined(lines, [], isInclude)
  {
    var buf: seq<string> := [];
    result := [];
    var i := 0;
    while i < |lines|
      invariant 0 <= i <= |lines|
      invariant Joined(lines, [], isInclude) == result + Joined(lines[i..], buf, isInclude)
    {
      var line := lines[i];
      JoinLoopStep(lines, i, buf, isInclude);
      if isInclude(line) {
        buf := buf + [line];
      } else {
        if buf != [] {
          result := result + [Concat(buf)];
          buf := [];
        }
        result := result + [line];
      }
      i := i + 1;
    }
    assert result + [] == result;
  }

  /** What is left to emit after line `i` is taken into account. */
  lemma JoinLoopStep(lines: seq<string>, i: int, buf: seq<string>, isInclude: string -> bool)
    requires 0 <= i < |lines|
    ensures isInclude(lines[i]) ==> Joined(lines[i..], buf, isInclude) == Joined(lines[i + 1..], buf + [lines[i]], isInclude)
    ensures !isInclude(lines[i]) ==>
              Joined(lines[i..], buf, isInclude) ==
              (if buf != [] then [Concat(buf)] else []) + [lines[i]] + Joined(lines[i + 1..], [], isInclude)
  {
    assert lines[i..][1..] == lines[i + 1..];
  }

  lemma ConcatAround(a: seq<string>, x: string, b: seq<string>)
    ensures Concat(a + [x] + b) == Concat(a) + x + Concat(b)
  {
    ConcatAppend(a + [x], b);
    ConcatAppend(a, [x]);
    assert Concat([x]) == x + Concat([]);
  }

  /** Only the pending run is lost: the emitted lines followed by it hold the
      same text as the input. */
  lemma {:induction false} JoinedText(lines: seq<string>, buf: seq<string>, isInclude: string -> bool)
    ensures Concat(Joined(lines, buf, isInclude)) + Concat(Pending(lines, buf, isInclude)) == Concat(buf) + Concat(lines)
  {
    if lines == [] {
      assert Concat(buf) + [] == Concat(buf);
    } else if isInclude(lines[0]) {
      JoinedText(lines[1..], buf + [lines[0]], isInclude);
      IncludeStep(lines, buf, isInclude);
    } else {
      JoinedText(lines[1..], [], isInclude);
      OtherStep(lines, buf, isInclude);
    }
  }

  lemma IncludeStep(lines: seq<string>, buf: seq<string>, isInclude: string -> bool)
    requires lines != [] && isInclude(lines[0])
    requires Concat(Joined(lines[1..], buf + [lines[0]], isInclude)) + Concat(Pending(lines[1..], buf + [lines[0]], isInclude))
             == Concat(buf + [lines[0]]) + Concat(lines[1..])
    ensures Concat(Joined(lines, buf, isInclude)) + Concat(Pending(lines, buf, isInclude)) == Concat(buf) + Concat(lines)
  {
    var l, rest := lines[0], lines[1..];
    assert Joined(lines, buf, isInclude) == Joined(rest, buf + [l], isInclude);
    assert Pending(lines, buf, isInclude) == Pending(rest, buf + [l], isInclude);
    assert Concat(lines) == l + Concat(rest);
    ConcatSnoc(buf, l);
    Assoc(Concat(buf), l, Concat(rest));
  }

  lemma ConcatSnoc(a: seq<string>, x: string)
    ensures Concat(a + [x]) == Concat(a) + x
  {
    ConcatAppend(a, [x]);
    assert Concat([x]) == x + Concat([]);
    assert x + [] == x;
  }

  lemma Assoc(a: string, b: string, c: string)
    ensures (a + b) + c == a + (b + c)
  {
  }

  lemma OtherStep(lines: seq<string>, buf: seq<string>, isInclude: string -> bool)
    requires lines != [] && !isInclude(lines[0])
    requires Concat(Joined(lines[1..], [], isInclude)) + Concat(Pending(lines[1..], [], isInclude))
             == Concat([]) + Concat(lines[1..])
    ensures Concat(Joined(lines, buf, isInclude)) + Concat(Pending(lines, buf, isInclude)) == Concat(buf) + Concat(lines)
  {
    var l, rest := lines[0], lines[1..];
    var joined, pending := Joined(rest, [], isInclude), Pending(rest, [], isInclude);
    var flushed := if buf != [] then [Concat(buf)] else [];
    assert Concat(flushed) == Concat(buf) by {
      if buf != [] { assert Concat(flushed) == Concat(buf) + Concat([]); }
    }
    assert Joined(lines, buf, isInclude) == flushed + [l] + joined;
    ConcatAround(flushed, l, joined);
    assert Concat(lines) == l + Concat(rest);
    assert Pending(lines, buf, isInclude) == pending;
    Regroup(Concat(buf), l, Concat(joined), Concat(pending), Concat(rest));
  }

  lemma Regroup(b: string, l: string, j: string, p: string, r: string)
    requires j + p == r
    ensures (b + l + j) + p == b + (l + r)
  {
  }

  lemma {:induction false} PendingIncludes(lines: seq<string>, buf: seq<string>, isInclude: string -> bool)
    requires forall k :: 0 <= k < |buf| ==> isInclude(buf[k])
    ensures forall k :: 0 <= k < |Pending(lines, buf, isInclude)| ==> isInclude(Pending(lines, buf, isInclude)[k])
    ensures lines != [] && !isInclude(lines[|lines| - 1]) ==> Pending(lines, buf, isInclude) == []
  {
    if lines != [] {
      var next := if isInclude(lines[0]) then buf + [lines[0]] else [];
      PendingIncludes(lines[1..], next, isInclude);
      if |lines| > 1 {
        assert lines[1..][|lines[1..]| - 1] == lines[|lines| - 1];
      }
    }
  }

  /** When the last line is not an include line (the Markdown reader passes at
      least one blank line last), joining keeps every character, in order. */
  lemma JoinKeepsText(lines: seq<string>, isInclude: string -> bool)
    requires lines != [] && !isInclude(lines[|lines| - 1])
    ensures Concat(Joined(lines, [], isInclude)) == Concat(lines)
  {
    JoinedText(lines, [], isInclude);
    PendingIncludes(lines, [], isInclude);
    NothingPending(Joined(lines, [], isInclude), Pending(lines, [], isInclude), lines);
  }

  lemma NothingPending(joined: seq<string>, pending: seq<string>, lines: seq<string>)
    requires Concat(joined) + Concat(pending) == Concat([]) + Concat(lines)
    requires pending == []
    ensures Concat(joined) == Concat(lines)
  {
    assert Concat(pending) == [] && Concat([]) == [];
    assert Concat(joined) + [] == Concat(joined);
    assert [] + Concat(lines) == Concat(lines);
  }

  /** Lines without include macros pass through unchanged. */
  lemma {:induction false} JoinWithoutIncludes(lines: seq<string>, isInclude: string -> bool)
    requires forall k :: 0 <= k < |lines| ==> !isInclude(lines[k])
    ensures Joined(lines, [], isInclude) == lines
  {
    if lines != [] {
      JoinWithoutIncludes(lines[1..], isInclude);
    }
  }

  /** A text made of include lines only yields nothing. */
  lemma {:induction false} JoinOnlyIncludes(lines: seq<string>, buf: seq<string>, isInclude: string -> bool)
    requires forall k :: 0 <= k < |lines| ==> isInclude(lines[k])
    ensures Joined(lines, buf, isInclude) == []
  {
    if lines != [] {
      JoinOnlyIncludes(lines[1..], buf + [lines[0]], isInclude);
    }
  }

  // ----------------------------------------------------- pattern folding

  /** The patterns applied one after the other to a line, first pattern first. */
  function ApplyAll(patterns: seq<string -> string>, line: string): (r: string)
    ensures patterns == [] ==> r == line
    ensures |patterns| == 1 ==> r == patterns[0](line)
    decreases |patterns|
  {
    if patterns == [] then line else ApplyAll(patterns[1..], patterns[0](line))
  }

  /** Applying a list of patterns and then another is applying their concatenation. */
  lemma {:induction false} ApplyAllAppend(p: seq<string -> string>, q: seq<string -> string>, line: string)
    ensures ApplyAll(p + q, line) == ApplyAll(q, ApplyAll(p, line))
    decreases |p|
  {
    if p == [] {
      assert p + q == q;
    } else {
      assert (p + q)[1..] == p[1..] + q;
      ApplyAllAppend(p[1..], q, p[0](line));
    }
  }

  /** `Pattern.sub` with the default `repl`, which gives back the match itself. */
  function IdentitySub(line: string): string {
    line
  }

  lemma {:induction false} IdentityPatterns(patterns: seq<string -> string>, line: string)
    requires forall k :: 0 <= k < |patterns| ==> patterns[k] == IdentitySub
    ensures ApplyAll(patterns, line) == line
    decreases |patterns|
  {
    if patterns != [] {
      IdentityPatterns(patterns[1..], patterns[0](line));
    }
  }

  /** `PatternReplacingProcessor.run`: every line in turn through every pattern. */
  method ReplaceLines(patterns: seq<string -> string>, lines: seq<string>) returns (newLines: seq<string>)
    ensures |newLines| == |lines|
    ensures forall i :: 0 <= i < |lines| ==> newLines[i] == ApplyAll(patterns, lines[i])
  {
    newLines := [];
    for i := 0 to |lines|
      invariant |newLines| == i
      invariant forall k :: 0 <= k < i ==> newLines[k] == ApplyAll(patterns, lines[k])
    {
      var line := lines[i];
      for j := 0 to |patterns|
        invariant line == ApplyAll(patterns[..j], lines[i])
      {
        ApplyAllAppend(patterns[..j], [patterns[j]], lines[i]);
        assert patterns[..j + 1] == patterns[..j] + [patterns[j]];
        line := patterns[j](line);
      }
      assert patterns[..|patterns|] == patterns;
      newLines := newLines + [line];
    }
  }

  // ------------------------------------------------------ artifact links

  /** An element of the parsed document, in document order. */
  class Element {
    const tag: string
    const attributes: map<string, string>
    var text: Option<string>

    constructor (tag: string, attributes: map<string, string>, text: Option<string>)
      ensures this.tag == tag && this.attributes == attributes && this.text == text
    {
      this.tag := tag;
      this.attributes := attributes;
      this.text := text;
    }
  }

  /** `node.get('class', '')`, split on whitespace. */
  function ClassTokens(attributes: map<string, string>): seq<string> {
    Split(if "class" in attributes then attributes["class"] else "")
  }

  /** The text `ForgeLinkTreeProcessor.run` gives an element: an `a` element of
      class `alink` with non-empty text gets its text in brackets. */
  function LinkText(tag: string, attributes: map<string, string>, text: Option<string>): (r: Option<string>)
    ensures tag != "a" || "alink" !in ClassTokens(attributes) || text.None? || text == Some("") ==> r == text
    ensures r != text ==> r.Some? && text.Some? &&
                          |r.value| == |text.value| + 2 && r.value[0] == '[' && r.value[|r.value| - 1] == ']' &&
                          r.value[1..|r.value| - 1] == text.value
  {
    if tag == "a" && "alink" in ClassTokens(attributes) && text.Some? && text.value != "" then
      Some("[" + text.value + "]")
    else text
  }

  /** `ForgeLinkTreeProcessor.run` over the elements of the tree; each element
      occurs once, as in a tree. */
  method WrapArtifactLinks(elements: seq<Element>)
    requires forall i, j :: 0 <= i < j < |elements| ==> elements[i] != elements[j]
    modifies set e | e in elements
    ensures forall i :: 0 <= i < |elements| ==>
              elements[i].text == LinkText(elements[i].tag, elements[i].attributes, old(elements[i].text))
  {
    for i := 0 to |elements|
      invariant forall k :: 0 <= k < i ==>
                  elements[k].text == LinkText(elements[k].tag, elements[k].attributes, old(elements[k].text))
      invariant forall k :: i <= k < |elements| ==> elements[k].text == old(elements[k].text)
    {
      var node := elements[i];
      if node.tag == "a" && "alink" in ClassTokens(node.attributes) && node.text.Some? && node.text.value != "" {
        node.text := Some("[" + node.text.value + "]");
      }
    }
  }

  // ------------------------------------------------- source references

  /** The groups of a `source:` reference match: the text before it, the file,
      the revision after `@` and the line number after `#L` when present, and the
      text after it. */
  datatype SourceRef = SourceRef(front: string, file: string, rev: Option<string>, line: Option<string>, back: string)

  /** Python's `group or default` for an optional group. */
  function OrElse(group: Option<string>, default: string): string {
    if group.Some? && group.value != "" then group.value else default
  }

  /** The reference as written, `source:file[@rev][#Lline]`. */
  function RefText(m: SourceRef): string {
    "source:" + m.file + (if m.rev.Some? then "@" + m.rev.value else "") + (if m.line.Some? then "#L" + m.line.value else "")
  }

  /** The link target of a reference in the tool mounted at `appUrl`. */
  function SourceUrl(appUrl: string, m: SourceRef): (url: string)
    ensures m.rev.None? ==> StartsWith(url, appUrl + "HEAD/tree/" + m.file)
    ensures m.line.None? || m.line == Some("") ==> url == appUrl + OrElse(m.rev, "HEAD") + "/tree/" + m.file
    ensures m.line.Some? && m.line.value != "" ==>
              url == appUrl + OrElse(m.rev, "HEAD") + "/tree/" + m.file + "#l" + m.line.value
  {
    var lineno := if m.line.Some? && m.line.value != "" then "#l" + m.line.value else "";
    var url := appUrl + OrElse(m.rev, "HEAD") + "/tree/" + m.file + lineno;
    assert url[..|appUrl + OrElse(m.rev, "HEAD") + "/tree/" + m.file|] == appUrl + OrElse(m.rev, "HEAD") + "/tree/" + m.file;
    url
  }

  /** `TracRef3.repl`: without a tool the match stays as it is; otherwise the
      reference becomes a Markdown link to the source view. */
  function SourceRefRepl(appUrl: Option<string>, m: SourceRef): (r: string)
    ensures |r| >= |m.front| + |m.back|
    ensures r[..|m.front|] == m.front && r[|r| - |m.back|..] == m.back
    ensures appUrl.None? ==> r[|m.front|..|r| - |m.back|] == RefText(m)
    ensures appUrl.Some? ==>
              r[|m.front|..|r| - |m.back|] == "[" + RefText(m) + "](" + SourceUrl(appUrl.value, m) + ")"
  {
    var mid := match appUrl
      case None => RefText(m)
      case Some(u) => "[" + RefText(m) + "](" + SourceUrl(u, m) + ")";
    var r := m.front + mid + m.back;
    assert r[..|m.front|] == m.front;
    assert r[|r| - |m.back|..] == m.back;
    assert r[|m.front|..|r| - |m.back|] == mid;
    r
  }

  // ------------------------------------------------------ content wrapper

  const ContentOpen := "<div class=\"markdown_content\">"
  const ContentClose := "</div>"

  /** `AddCustomClass.run`: the rendered text inside the content `div`. */
  function AddCustomClass(text: string): (r: string)
    ensures StartsWith(r, ContentOpen)
    ensures |r| == |ContentOpen| + |text| + |ContentClose|
    ensures r[|ContentOpen|..|r| - |ContentClose|] == text
    ensures r[|r| - |ContentClose|..] == ContentClose
  {
    var r := ContentOpen + text + ContentClose;
    assert r[..|ContentOpen|] == ContentOpen;
    r
  }
}

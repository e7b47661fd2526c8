/**
 * The Python string operations the log selector relies on: `str.strip()`,
 * `str.rsplit(sep, 1)[0]`, `str.replace('\n', '<br>')`, and substring search.
 */
module Text {
  import opened Wrappers

  /** Python's `str.isspace()` on one character: the Unicode whitespace code points. */
  predicate IsSpace(c: char) {
    var n := c as int;
    (9 <= n <= 13) || (28 <= n <= 32) || n == 0x85 || n == 0xA0 || n == 0x1680
    || (0x2000 <= n <= 0x200A) || n == 0x2028 || n == 0x2029 || n == 0x202F
    || n == 0x205F || n == 0x3000
  }

  predicate AllSpace(s: string) {
    forall k | 0 <= k < |s| :: IsSpace(s[k])
  }

  /** Drops the leading whitespace: the result is a suffix of `s` that does not start with whitespace. */
  function StripStart(s: string): (r: string)
    ensures |r| <= |s| && r == s[|s| - |r|..]
    ensures AllSpace(s[..|s| - |r|])
    ensures r == [] || !IsSpace(r[0])
  {
    if s == [] || !IsSpace(s[0]) then s
    else
      var r := StripStart(s[1..]);
      assert s[..|s| - |r|] == [s[0]] + s[1..][..|s| - 1 - |r|];
      r
  }

  /** Drops the trailing whitespace: the result is a prefix of `s` that does not end with whitespace. */
  function StripEnd(s: string): (r: string)
    ensures r <= s
    ensures AllSpace(s[|r|..])
    ensures r == [] || !IsSpace(r[|r| - 1])
  {
    if s == [] || !IsSpace(s[|s| - 1]) then s
    else
      var r := StripEnd(s[..|s| - 1]);
      assert s[|r|..] == s[..|s| - 1][|r|..] + [s[|s| - 1]];
      r
  }

  /** Python's `s.strip()`. */
  function Strip(s: string): (r: string)
    ensures r == [] || (!IsSpace(r[0]) && !IsSpace(r[|r| - 1]))
    ensures r == [] <==> AllSpace(s)
  {
    var t := StripStart(s);
    assert s == s[..|s| - |t|] + t;
    StripEnd(t)
  }

  lemma {:induction false} StripStartOf(pre: string, rest: string)
    requires AllSpace(pre)
    requires rest == [] || !IsSpace(rest[0])
    ensures StripStart(pre + rest) == rest
  {
    if pre != [] {
      assert (pre + rest)[1..] == pre[1..] + rest;
      StripStartOf(pre[1..], rest);
    }
  }

  lemma {:induction false} StripEndOf(core: string, post: string)
    requires AllSpace(post)
    requires core == [] || !IsSpace(core[|core| - 1])
    ensures StripEnd(core + post) == core
  {
    if post != [] {
      var n := |post| - 1;
      assert (core + post)[..|core + post| - 1] == core + post[..n];
      StripEndOf(core, post[..n]);
    }
  }

  /**
   * `strip()` is characterised by its result: whatever whitespace surrounds a core
   * that neither starts nor ends with whitespace, stripping yields exactly that core.
   */
  lemma {:induction false} StripUnique(pre: string, core: string, post: string)
    requires AllSpace(pre) && AllSpace(post)
    requires core == [] || (!IsSpace(core[0]) && !IsSpace(core[|core| - 1]))
    ensures Strip(pre + core + post) == core
  {
    if core == [] {
      assert pre + core + post == pre + post;
      assert AllSpace(pre + post);
    } else {
      assert pre + core + post == pre + (core + post);
      StripStartOf(pre, core + post);
      StripEndOf(core, post);
    }
  }

  /** Cutting `t` around a suffix `a` and a prefix `core` of that suffix. */
  lemma CutAround(t: string, a: string, core: string) returns (pre: string, post: string)
    requires |a| <= |t| && a == t[|t| - |a|..]
    requires core <= a
    ensures pre == t[..|t| - |a|] && post == a[|core|..]
    ensures t == pre + core + post
  {
    pre := t[..|t| - |a|];
    post := a[|core|..];
    assert t == pre + a;
    assert a == core + post;
  }

  /** Every string is its stripped core surrounded by whitespace. */
  lemma StripSplits(t: string) returns (pre: string, post: string)
    ensures t == pre + Strip(t) + post
    ensures AllSpace(pre) && AllSpace(post)
  {
    var a := StripStart(t);
    var core := StripEnd(a);
    assert Strip(t) == core;
    pre, post := CutAround(t, a, core);
  }

  lemma AllSpaceNewline(s: string)
    requires AllSpace(s)
    ensures AllSpace(s + "\n")
  {
    assert IsSpace('\n');
    forall k | 0 <= k < |s| + 1 ensures IsSpace((s + "\n")[k]) {
      if k < |s| { assert (s + "\n")[k] == s[k]; }
    }
  }

  lemma Reassociate(t: string, pre: string, core: string, post: string, x: string)
    requires t == pre + core + post
    ensures t + x == pre + core + (post + x)
  {
  }

  /** Stripping a text widget's content, which Tk returns with one extra newline, is stripping the text. */
  lemma {:induction false} StripIgnoresTrailingNewline(t: string)
    ensures Strip(t + "\n") == Strip(t)
  {
    var pre, post := StripSplits(t);
    AllSpaceNewline(post);
    Reassociate(t, pre, Strip(t), post, "\n");
    StripUnique(pre, Strip(t), post + "\n");
  }

  // ---------------------------------------------------------------- substring search

  predicate OccursAt(s: string, p: string, i: int) {
    0 <= i && i + |p| <= |s| && s[i..i + |p|] == p
  }

  predicate Contains(s: string, p: string) {
    exists i | 0 <= i <= |s| - |p| :: OccursAt(s, p, i)
  }

  /** The last position `<= k` where `p` occurs in `s`, searching downwards. */
  function LastIndexFrom(s: string, p: string, k: nat): (r: Option<nat>)
    ensures r.Some? ==> r.value <= k && OccursAt(s, p, r.value)
    ensures r.Some? ==> forall j | r.value < j <= k :: !OccursAt(s, p, j)
    ensures r.None? ==> forall j | 0 <= j <= k :: !OccursAt(s, p, j)
    decreases k
  {
    if OccursAt(s, p, k) then Some(k)
    else if k == 0 then None
    else LastIndexFrom(s, p, k - 1)
  }

  /** Python's `s.rfind(p)`, with `None` for -1. */
  function LastIndexOf(s: string, p: string): (r: Option<nat>)
    ensures r.Some? ==> OccursAt(s, p, r.value) && forall j | r.value < j :: !OccursAt(s, p, j)
    ensures r.None? <==> !Contains(s, p)
  {
    LastIndexFrom(s, p, |s|)
  }

  /**
   * Python's `s.rsplit(p, 1)[0]`: the text before the last occurrence of `p`,
   * or all of `s` when `p` does not occur (an empty `p` raises in Python).
   */
  function BeforeLast(s: string, p: string): (r: string)
    requires p != []
    ensures r <= s
    ensures Contains(s, p) ==> OccursAt(s, p, |r|) && forall j | |r| < j :: !OccursAt(s, p, j)
    ensures !Contains(s, p) ==> r == s
  {
    match LastIndexOf(s, p)
    case None => s
    case Some(i) => s[..i]
  }

  /** Python's `s.replace('\n', '<br>')`. */
  function ReplaceNewlines(s: string): (r: string)
    ensures '\n' !in r
    ensures '\n' !in s ==> r == s
  {
    if s == [] then []
    else (if s[0] == '\n' then "<br>" else [s[0]]) + ReplaceNewlines(s[1..])
  }

  /** The replacement works character by character, so it distributes over concatenation. */
  lemma {:induction false} ReplaceNewlinesConcat(a: string, b: string)
    ensures ReplaceNewlines(a + b) == ReplaceNewlines(a) + ReplaceNewlines(b)
  {
    if a == [] {
      assert a + b == b;
    } else {
      assert (a + b)[0] == a[0] && (a + b)[1..] == a[1..] + b;
      ReplaceNewlinesConcat(a[1..], b);
    }
  }

  /** One character: a newline becomes `<br>`, anything else stays. */
  lemma ReplaceNewlinesChar(c: char)
    ensures ReplaceNewlines([c]) == if c == '\n' then "<br>" else [c]
  {
    assert [c][1..] == [];
  }

  // ---------------------------------------------------------------- absence of a pattern

  /** A string lacking one of the pattern's characters cannot contain the pattern. */
  lemma MissingChar(s: string, p: string, c: char)
    requires c in p && c !in s
    ensures !Contains(s, p)
  {
    var j :| 0 <= j < |p| && p[j] == c;
    forall i | 0 <= i <= |s| - |p| ensures !OccursAt(s, p, i) {
      assert s[i..i + |p|][j] == s[i + j];
    }
  }

  /**
   * An occurrence of `p` in `a + b` that lies in neither part must straddle the seam,
   * so it is excluded when the last character of `a` appears nowhere in `p` except at its end,
   * or the first character of `b` appears nowhere in `p` except at its start.
   */
  lemma ConcatWithout(a: string, b: string, p: string)
    requires p != []
    requires (a != [] && a[|a| - 1] !in p[..|p| - 1]) || (b != [] && b[0] !in p[1..])
    requires !Contains(a, p) && !Contains(b, p)
    ensures !Contains(a + b, p)
  {
    var s := a + b;
    forall i | 0 <= i <= |s| - |p| ensures !OccursAt(s, p, i) {
      if i + |p| <= |a| {
        assert s[i..i + |p|] == a[i..i + |p|];
        assert !OccursAt(a, p, i);
      } else if i >= |a| {
        assert s[i..i + |p|] == b[i - |a|..i - |a| + |p|];
        assert !OccursAt(b, p, i - |a|);
      } else if a != [] && a[|a| - 1] !in p[..|p| - 1] {
        assert s[i..i + |p|][|a| - 1 - i] == a[|a| - 1];
        assert p[..|p| - 1][|a| - 1 - i] == p[|a| - 1 - i];
      } else {
        assert s[i..i + |p|][|a| - i] == b[0];
        assert p[1..][|a| - i - 1] == p[|a| - i];
      }
    }
  }

  /** Absence of `p` carries over to both parts of a concatenation. */
  lemma WithoutParts(a: string, b: string, p: string)
    requires !Contains(a + b, p)
    ensures !Contains(a, p) && !Contains(b, p)
  {
    forall i | 0 <= i <= |a| - |p| ensures !OccursAt(a, p, i) {
      assert (a + b)[i..i + |p|] == a[i..i + |p|];
      assert !OccursAt(a + b, p, i);
    }
    forall i | 0 <= i <= |b| - |p| ensures !OccursAt(b, p, i) {
      assert (a + b)[|a| + i..|a| + i + |p|] == b[i..i + |p|];
      assert !OccursAt(a + b, p, |a| + i);
    }
  }

  /** Stripping only removes characters from the ends, so it cannot create a pattern. */
  lemma StripKeepsOut(s: string, p: string)
    requires !Contains(s, p)
    ensures !Contains(Strip(s), p)
  {
    var pre, post := StripSplits(s);
    WithoutParts(pre + Strip(s), post, p);
    WithoutParts(pre, Strip(s), p);
  }

  /** A text whose rendering starts with `q` starts with `q` itself, when `q` has no `<`. */
  lemma {:induction false} RenderedPrefix(t: string, q: string)
    requires '<' !in q
    requires q <= ReplaceNewlines(t)
    ensures q <= t
  {
    if q != [] {
      assert t != [];
      assert q[0] in q;
      assert ReplaceNewlines(t) == (if t[0] == '\n' then "<br>" else [t[0]]) + ReplaceNewlines(t[1..]);
      assert t[0] != '\n';
      assert q[1..] <= ReplaceNewlines(t[1..]);
      assert '<' !in q[1..] by {
        forall k | 0 <= k < |q| - 1 ensures q[1..][k] != '<' { assert q[1..][k] == q[k + 1]; }
      }
      RenderedPrefix(t[1..], q[1..]);
    }
  }

  /** A match at the very start of `[c] + ReplaceNewlines(t)` is one of `[c] + t`, when `p` has no `<` after its head. */
  lemma RenderedHeadMatch(c: char, t: string, p: string)
    requires p != [] && '<' !in p[1..]
    requires OccursAt([c] + ReplaceNewlines(t), p, 0)
    ensures OccursAt([c] + t, p, 0)
  {
    var r := ReplaceNewlines(t);
    assert c == ([c] + r)[0] == p[0];
    assert p[1..] == r[..|p| - 1];
    RenderedPrefix(t, p[1..]);
    assert ([c] + t)[..|p|] == [c] + t[..|p| - 1];
  }

  /** A match past the first character of `[c] + r` is a match in `r`. */
  lemma ShiftedMatch(c: char, r: string, p: string, i: int)
    requires i >= 1 && OccursAt([c] + r, p, i)
    ensures OccursAt(r, p, i - 1)
  {
    assert ([c] + r)[i..i + |p|] == r[i - 1..i - 1 + |p|];
  }

  /** Putting one character other than a newline in front keeps a pattern out, when it is kept out of the rendering of the rest. */
  lemma RenderingConsKeepsOut(c: char, t: string, p: string)
    requires p != [] && '<' !in p[1..]
    requires !Contains([c] + t, p) && !Contains(ReplaceNewlines(t), p)
    ensures !Contains([c] + ReplaceNewlines(t), p)
  {
    var r := ReplaceNewlines(t);
    var s := [c] + r;
    forall i | 0 <= i <= |s| - |p| ensures !OccursAt(s, p, i) {
      if i == 0 {
        if OccursAt(s, p, 0) {
          RenderedHeadMatch(c, t, p);
        }
      } else if OccursAt(s, p, i) {
        ShiftedMatch(c, r, p, i);
      }
    }
  }

  /**
   * Turning newlines into `<br>` never creates an occurrence of a pattern longer than `<br>` that
   * starts with `<`, has no other `<`, and whose only `>` is its last character.
   */
  lemma {:induction false} RenderingKeepsOut(s: string, p: string)
    requires |p| > 4 && p[0] == '<' && p[|p| - 1] == '>'
    requires '<' !in p[1..] && '>' !in p[..|p| - 1]
    requires !Contains(s, p)
    ensures !Contains(ReplaceNewlines(s), p)
  {
    if s != [] {
      var t := s[1..];
      assert s == [s[0]] + t;
      WithoutParts([s[0]], t, p);
      RenderingKeepsOut(t, p);
      if s[0] == '\n' {
        assert ReplaceNewlines(s) == "<br>" + ReplaceNewlines(t);
        assert !Contains("<br>", p);
        ConcatWithout("<br>", ReplaceNewlines(t), p);
      } else {
        assert ReplaceNewlines(s) == [s[0]] + ReplaceNewlines(t);
        RenderingConsKeepsOut(s[0], t, p);
      }
    }
  }
}

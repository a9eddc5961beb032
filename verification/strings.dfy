/** The few Python `str` operations the plugins rely on, with their exact semantics. */
module Strings {

  /** Concatenation is associative; stated once so that proofs need not rebuild it. */
  lemma ConcatAssoc<T>(a: seq<T>, b: seq<T>, c: seq<T>)
    ensures (a + b) + c == a + (b + c)
  {
  }

  /** Python's `str.isspace()` on a single character. */
  predicate IsSpace(c: char) {
    c == ' ' || ('\U{09}' <= c <= '\U{0D}') || ('\U{1C}' <= c <= '\U{1F}')
    || c == '\U{85}' || c == '\U{A0}' || c == '\U{1680}'
    || ('\U{2000}' <= c <= '\U{200A}') || c == '\U{2028}' || c == '\U{2029}'
    || c == '\U{202F}' || c == '\U{205F}' || c == '\U{3000}'
  }

  predicate IsUpper(c: char) { 'A' <= c <= 'Z' }

  /** Lower-cases ASCII letters; every other character is left alone. */
  function LowerChar(c: char): (r: char)
    ensures !IsUpper(r)
    ensures !IsUpper(c) ==> r == c
  {
    if IsUpper(c) then (c as int + 32) as char else c
  }

  /** `str.lower()`, restricted to ASCII case mapping. */
  function Lower(s: string): (r: string)
    ensures |r| == |s|
    ensures forall i :: 0 <= i < |s| ==> r[i] == LowerChar(s[i])
  {
    seq(|s|, i requires 0 <= i < |s| => LowerChar(s[i]))
  }

  /** Text without upper-case letters is its own lower-case form. */
  lemma LowerFixed(s: string)
    requires forall k :: 0 <= k < |s| ==> !IsUpper(s[k])
    ensures Lower(s) == s
  {
  }

  /** Number of leading characters of `s` that `drop` accepts. */
  function LeadCount(s: string, drop: char -> bool): (n: nat)
    ensures n <= |s|
    ensures forall k :: 0 <= k < n ==> drop(s[k])
    ensures n < |s| ==> !drop(s[n])
    decreases |s|
  {
    if |s| == 0 || !drop(s[0]) then 0 else 1 + LeadCount(s[1..], drop)
  }

  /** Number of trailing characters of `s` that `drop` accepts. */
  function TrailCount(s: string, drop: char -> bool): (n: nat)
    ensures n <= |s|
    ensures forall k :: |s| - n <= k < |s| ==> drop(s[k])
    ensures n < |s| ==> !drop(s[|s| - n - 1])
    decreases |s|
  {
    if |s| == 0 || !drop(s[|s| - 1]) then 0 else 1 + TrailCount(s[..|s| - 1], drop)
  }

  /** `str.strip(chars)`: removes characters accepted by `drop` from both ends. */
  function StripBy(s: string, drop: char -> bool): (r: string)
    ensures |r| <= |s|
    ensures |r| > 0 ==> !drop(r[0]) && !drop(r[|r| - 1])
    ensures (forall k :: 0 <= k < |s| ==> drop(s[k])) ==> r == ""
    ensures |s| == 0 || (!drop(s[0]) && !drop(s[|s| - 1])) ==> r == s
  {
    var a := LeadCount(s, drop);
    var t := s[a..];
    t[..|t| - TrailCount(t, drop)]
  }

  /** `str.strip()` with no argument. */
  function Strip(s: string): string {
    StripBy(s, IsSpace)
  }

  /** Lower-casing changes no space into a non-space or back. */
  lemma {:induction false} LeadLower(s: string)
    ensures LeadCount(Lower(s), IsSpace) == LeadCount(s, IsSpace)
    decreases |s|
  {
    if |s| > 0 {
      assert Lower(s)[1..] == Lower(s[1..]);
      LeadLower(s[1..]);
    }
  }

  lemma {:induction false} TrailLower(s: string)
    ensures TrailCount(Lower(s), IsSpace) == TrailCount(s, IsSpace)
    decreases |s|
  {
    if |s| > 0 {
      assert Lower(s)[..|s| - 1] == Lower(s[..|s| - 1]);
      TrailLower(s[..|s| - 1]);
    }
  }

  /** Stripping and lower-casing commute. */
  lemma StripLower(s: string)
    ensures Strip(Lower(s)) == Lower(Strip(s))
  {
    var ls := Lower(s);
    var a := LeadCount(s, IsSpace);
    var t := s[a..];
    var n := TrailCount(t, IsSpace);
    var m := |t| - n;
    LeadLower(s);
    LowerDrop(s, a);
    TrailLower(t);
    StripAt(s, a, n);
    StripAt(ls, a, n);
    LowerTake(t, m);
  }

  lemma LowerDrop(s: string, a: nat)
    requires a <= |s|
    ensures Lower(s)[a..] == Lower(s[a..])
  {
  }

  lemma LowerTake(s: string, m: nat)
    requires m <= |s|
    ensures Lower(s)[..m] == Lower(s[..m])
  {
  }

  /** `Strip` given the number of leading and trailing spaces. */
  lemma StripAt(s: string, a: nat, n: nat)
    requires a == LeadCount(s, IsSpace) && n == TrailCount(s[a..], IsSpace)
    ensures a + n <= |s| && Strip(s) == s[a..][..|s| - a - n]
  {
  }

  /** Lower-casing twice is lower-casing once. */
  lemma LowerTwice(s: string)
    ensures Lower(Lower(s)) == Lower(s)
  {
  }

  /** Leading spaces in front of a text that does not begin with one are all counted. */
  lemma {:induction false} LeadSpaces(pre: string, x: string)
    requires All(pre, IsSpace) && (x == "" || !IsSpace(x[0]))
    ensures LeadCount(pre + x, IsSpace) == |pre|
    decreases |pre|
  {
    if |pre| > 0 {
      var rest := pre[1..];
      assert (pre + x)[0] == pre[0];
      assert (pre + x)[1..] == rest + x;
      assert All(rest, IsSpace) by {
        forall k | 0 <= k < |rest| ensures IsSpace(rest[k]) {
          assert rest[k] == pre[k + 1];
        }
      }
      LeadSpaces(rest, x);
    } else {
      assert pre + x == x;
    }
  }

  /** Trailing spaces after a text that does not end with one are all counted. */
  lemma {:induction false} TrailSpaces(x: string, post: string)
    requires All(post, IsSpace) && (x == "" || !IsSpace(x[|x| - 1]))
    ensures TrailCount(x + post, IsSpace) == |post|
    decreases |post|
  {
    if |post| > 0 {
      var init := post[..|post| - 1];
      var xp := x + post;
      assert xp[|xp| - 1] == post[|post| - 1];
      assert xp[..|xp| - 1] == x + init;
      assert All(init, IsSpace) by {
        forall k | 0 <= k < |init| ensures IsSpace(init[k]) {
          assert init[k] == post[k];
        }
      }
      TrailSpaces(x, init);
    } else {
      assert x + post == x;
    }
  }

  /** A text with no space at either end strips to itself. */
  lemma StripFixed(s: string)
    requires s != "" && !IsSpace(s[0]) && !IsSpace(s[|s| - 1])
    ensures Strip(s) == s
  {
  }

  /** A text with no space at either end, padded with spaces, strips to itself. */
  lemma StripOf(pre: string, w: string, post: string)
    requires All(pre, IsSpace) && All(post, IsSpace)
    requires w != "" && !IsSpace(w[0]) && !IsSpace(w[|w| - 1])
    ensures Strip(pre + w + post) == w
  {
    var s := pre + w + post;
    var a, n := |pre|, |post|;
    var wp := w + post;
    assert s == pre + wp;
    assert wp[0] == w[0];
    LeadSpaces(pre, wp);
    assert s[a..] == wp;
    TrailSpaces(w, post);
    assert s[a..|s| - n] == w;
    StripIs(s, a, n, w);
  }

  /** Stripping keeps exactly the characters between the leading and trailing spaces. */
  lemma StripIs(s: string, a: nat, n: nat, w: string)
    requires a == LeadCount(s, IsSpace) && n == TrailCount(s[a..], IsSpace)
    requires a + n <= |s| && w == s[a..|s| - n]
    ensures Strip(s) == w
  {
    assert s[a..][..|s| - a - n] == w;
  }

  /** Every text is its stripped form padded with spaces. */
  lemma StripSplit(t: string) returns (pre: string, post: string)
    ensures All(pre, IsSpace) && All(post, IsSpace)
    ensures t == pre + Strip(t) + post
  {
    var a := LeadCount(t, IsSpace);
    var n := TrailCount(t[a..], IsSpace);
    pre, post := t[..a], t[|t| - n..];
    LeadPart(t);
    TrailAfter(t, a);
    StripParts(t, a, n);
  }

  lemma StripParts(t: string, a: nat, n: nat)
    requires a == LeadCount(t, IsSpace) && n == TrailCount(t[a..], IsSpace)
    ensures a + n <= |t| && t == t[..a] + Strip(t) + t[|t| - n..]
  {
    StripAt(t, a, n);
    ThreeParts(t, a, n, Strip(t));
  }

  lemma TrailAfter(t: string, a: nat)
    requires a <= |t|
    ensures TrailCount(t[a..], IsSpace) <= |t| - a
    ensures All(t[|t| - TrailCount(t[a..], IsSpace)..], IsSpace)
  {
    var tt := t[a..];
    var n := TrailCount(tt, IsSpace);
    TrailPart(tt);
    assert tt[|tt| - n..] == t[|t| - n..];
  }

  lemma LeadPart(t: string)
    ensures All(t[..LeadCount(t, IsSpace)], IsSpace)
  {
    var a := LeadCount(t, IsSpace);
    forall k | 0 <= k < a ensures IsSpace(t[..a][k]) {
      assert t[..a][k] == t[k];
    }
  }

  lemma TrailPart(u: string)
    ensures All(u[|u| - TrailCount(u, IsSpace)..], IsSpace)
  {
    var b := |u| - TrailCount(u, IsSpace);
    forall k | 0 <= k < |u| - b ensures IsSpace(u[b..][k]) {
      assert u[b..][k] == u[b + k];
    }
  }

  lemma ThreeParts<T>(t: seq<T>, a: nat, n: nat, w: seq<T>)
    requires a + n <= |t| && w == t[a..][..|t| - a - n]
    ensures t == t[..a] + w + t[|t| - n..]
  {
    assert w == t[a..|t| - n];
  }

  /** Whitespace around a text is stripped along with the text's own. */
  lemma StripPadded(ws1: string, t: string, ws2: string)
    requires All(ws1, IsSpace) && All(ws2, IsSpace)
    ensures Strip(ws1 + t + ws2) == Strip(t)
  {
    var pre, post := StripSplit(t);
    var w := Strip(t);
    var left, right := ws1 + pre, post + ws2;
    Regroup(ws1, pre, w, post, ws2);
    AllConcat(ws1, pre, IsSpace);
    AllConcat(post, ws2, IsSpace);
    if w == "" {
      StripAllSpace(left, right);
    } else {
      StripOf(left, w, right);
    }
  }

  lemma Regroup<T>(a: seq<T>, b: seq<T>, c: seq<T>, d: seq<T>, e: seq<T>)
    ensures a + (b + c + d) + e == (a + b) + c + (d + e)
  {
  }

  lemma StripAllSpace(left: string, right: string)
    requires All(left, IsSpace) && All(right, IsSpace)
    ensures Strip(left + "" + right) == ""
  {
    assert left + "" + right == left + right;
    AllConcat(left, right, IsSpace);
  }

  /** The characters of `s` that `keep` accepts, in order. */
  function Filter(s: string, keep: char -> bool): (r: string)
    ensures |r| <= |s|
    ensures forall k :: 0 <= k < |r| ==> keep(r[k])
    ensures (forall k :: 0 <= k < |s| ==> keep(s[k])) ==> r == s
    decreases |s|
  {
    if |s| == 0 then ""
    else if keep(s[0]) then [s[0]] + Filter(s[1..], keep)
    else Filter(s[1..], keep)
  }

  /** Python's `sub in s`. */
  predicate Contains(s: string, sub: string)
    decreases |s|
  {
    sub <= s || (|s| > 0 && Contains(s[1..], sub))
  }

  /** `s.replace(pat, rep)`: every non-overlapping occurrence, scanned left to right;
      an empty `pat` inserts `rep` around every character, as Python does. */
  function ReplaceAll(s: string, pat: string, rep: string): (r: string)
    decreases |s|
  {
    if |pat| == 0 then
      if |s| == 0 then rep else rep + [s[0]] + ReplaceAll(s[1..], pat, rep)
    else if |s| < |pat| then s
    else if pat <= s then rep + ReplaceAll(s[|pat|..], pat, rep)
    else [s[0]] + ReplaceAll(s[1..], pat, rep)
  }

  /** A string in which `pat` does not occur is left alone by `ReplaceAll`. */
  lemma {:induction false} ReplaceAbsent(s: string, pat: string, rep: string)
    requires |pat| > 0 && !Contains(s, pat)
    ensures ReplaceAll(s, pat, rep) == s
    decreases |s|
  {
    if |s| >= |pat| {
      ReplaceAbsent(s[1..], pat, rep);
    }
  }

  // ---- character properties that survive the edits ----

  predicate All(s: string, p: char -> bool) {
    forall k :: 0 <= k < |s| ==> p(s[k])
  }

  lemma {:induction false} AllConcat(a: string, b: string, p: char -> bool)
    ensures All(a + b, p) <==> All(a, p) && All(b, p)
  {
    if All(a, p) && All(b, p) {
      forall k | 0 <= k < |a + b| ensures p((a + b)[k]) {
        if k >= |a| {
          assert (a + b)[k] == b[k - |a|];
        }
      }
    }
    if All(a + b, p) {
      assert forall k :: 0 <= k < |a| ==> (a + b)[k] == a[k];
      assert forall k :: 0 <= k < |b| ==> (a + b)[|a| + k] == b[k];
    }
  }

  /** Filtering keeps only characters of the input. */
  lemma {:induction false} FilterKeeps(s: string, keep: char -> bool, p: char -> bool)
    requires All(s, p)
    ensures All(Filter(s, keep), p)
    decreases |s|
  {
    if |s| > 0 {
      FilterKeeps(s[1..], keep, p);
      AllConcat([s[0]], Filter(s[1..], keep), p);
    }
  }

  /** Replacing keeps only characters of the input and the replacement. */
  lemma {:induction false} ReplaceAllKeeps(s: string, pat: string, rep: string, p: char -> bool)
    requires All(s, p) && All(rep, p)
    ensures All(ReplaceAll(s, pat, rep), p)
    decreases |s|
  {
    if |pat| == 0 {
      if |s| > 0 {
        ReplaceAllKeeps(s[1..], pat, rep, p);
        AllConcat(rep, [s[0]], p);
        AllConcat(rep + [s[0]], ReplaceAll(s[1..], pat, rep), p);
      }
    } else if |s| >= |pat| {
      if pat <= s {
        ReplaceAllKeeps(s[|pat|..], pat, rep, p);
        AllConcat(rep, ReplaceAll(s[|pat|..], pat, rep), p);
      } else {
        ReplaceAllKeeps(s[1..], pat, rep, p);
        AllConcat([s[0]], ReplaceAll(s[1..], pat, rep), p);
      }
    }
  }

  /** Collapsing runs keeps only characters of the input and the replacement. */
  lemma {:induction false} CollapseRunsKeeps(s: string, c: char, rep: char, p: char -> bool)
    requires All(s, p) && p(rep)
    ensures All(CollapseRuns(s, c, rep), p)
    decreases |s|
  {
    if |s| > 0 {
      if s[0] == c {
        var n := LeadCount(s, x => x == c);
        CollapseRunsKeeps(s[n..], c, rep, p);
        AllConcat([rep], CollapseRuns(s[n..], c, rep), p);
      } else {
        CollapseRunsKeeps(s[1..], c, rep, p);
        AllConcat([s[0]], CollapseRuns(s[1..], c, rep), p);
      }
    }
  }

  /** A first occurrence of `pat` preceded by text in which no occurrence of `pat` begins:
      the replacement starts exactly there. */
  lemma {:induction false} ReplaceFirstAt(pre: string, pat: string, post: string, rep: string)
    requires |pat| > 0
    requires forall p :: 0 <= p < |pre| ==> !(pat <= (pre + pat + post)[p..])
    ensures ReplaceAll(pre + pat + post, pat, rep) == pre + rep + ReplaceAll(post, pat, rep)
    decreases |pre|
  {
    if |pre| == 0 {
      assert pre + pat + post == pat + post;
      ReplaceStepMatch(pat, post, rep);
      assert pre + rep + ReplaceAll(post, pat, rep) == rep + ReplaceAll(post, pat, rep);
    } else {
      assert !(pat <= pre + pat + post) by {
        assert (pre + pat + post)[0..] == pre + pat + post;
      }
      PreTailNoStart(pre, pat, post);
      ReplaceFirstAt(pre[1..], pat, post, rep);
      ReplaceFirstAtStep(pre, pat, post, rep);
    }
  }

  /** The inductive step of `ReplaceFirstAt`: one character of `pre` is copied. */
  lemma ReplaceFirstAtStep(pre: string, pat: string, post: string, rep: string)
    requires |pat| > 0 && |pre| > 0
    requires !(pat <= pre + pat + post)
    requires ReplaceAll(pre[1..] + pat + post, pat, rep) == pre[1..] + rep + ReplaceAll(post, pat, rep)
    ensures ReplaceAll(pre + pat + post, pat, rep) == pre + rep + ReplaceAll(post, pat, rep)
  {
    var s1 := pre[1..] + pat + post;
    var tail := ReplaceAll(post, pat, rep);
    assert pre + pat + post == [pre[0]] + s1;
    ReplaceStepSkip(pre[0], s1, pat, rep);
    assert [pre[0]] + pre[1..] == pre;
    assert [pre[0]] + (pre[1..] + rep + tail) == pre + rep + tail;
  }

  /** One step of `ReplaceAll` at an occurrence. */
  lemma ReplaceStepMatch(pat: string, post: string, rep: string)
    requires |pat| > 0
    ensures ReplaceAll(pat + post, pat, rep) == rep + ReplaceAll(post, pat, rep)
  {
    var s := pat + post;
    assert pat <= s;
    assert s[|pat|..] == post;
  }

  /** One step of `ReplaceAll` past a character where no occurrence begins. */
  lemma ReplaceStepSkip(c: char, s1: string, pat: string, rep: string)
    requires |pat| > 0 && |s1| >= |pat| && !(pat <= [c] + s1)
    ensures ReplaceAll([c] + s1, pat, rep) == [c] + ReplaceAll(s1, pat, rep)
  {
    var s := [c] + s1;
    assert s[0] == c && s[1..] == s1;
  }

  /** The no-early-occurrence condition passes from `pre` to its tail. */
  lemma PreTailNoStart(pre: string, pat: string, post: string)
    requires |pre| > 0
    requires forall p :: 0 <= p < |pre| ==> !(pat <= (pre + pat + post)[p..])
    ensures forall p :: 0 <= p < |pre[1..]| ==> !(pat <= (pre[1..] + pat + post)[p..])
  {
    var s := pre + pat + post;
    forall p | 0 <= p < |pre[1..]| ensures !(pat <= (pre[1..] + pat + post)[p..]) {
      assert (pre[1..] + pat + post)[p..] == s[p + 1..];
    }
  }

  /** No occurrence of `pat` begins inside a text that lacks its first character. */
  lemma NoStartIn(a: string, pat: string, post: string)
    requires |pat| > 0 && pat[0] !in a
    ensures forall p :: 0 <= p < |a| ==> !(pat <= (a + pat + post)[p..])
  {
    forall p | 0 <= p < |a| ensures !(pat <= (a + pat + post)[p..]) {
      var s := a + pat + post;
      assert s[p] == a[p];
      assert s[p..][0] == a[p];
    }
  }

  /** Replacing `pat` in a text that lacks its first character changes nothing. */
  lemma HeadAbsent(a: string, pat: string, rep: string)
    requires |pat| > 0 && pat[0] !in a
    ensures ReplaceAll(a, pat, rep) == a
  {
    if Contains(a, pat) {
      ContainsHead(a, pat);
    }
    ReplaceAbsent(a, pat, rep);
  }

  /** Replacing a pattern whose first character does not recur in it: an occurrence
      splits the text, since no other occurrence can overlap it. */
  lemma {:induction false} ReplaceAround(a: string, pat: string, b: string, rep: string)
    requires |pat| > 0 && pat[0] !in pat[1..]
    ensures ReplaceAll(a + pat + b, pat, rep)
      == ReplaceAll(a, pat, rep) + rep + ReplaceAll(b, pat, rep)
    decreases |a|
  {
    if |a| == 0 {
      assert a + pat + b == pat + b;
      ReplaceStepMatch(pat, b, rep);
      assert ReplaceAll(a, pat, rep) == "";
    } else if pat <= a {
      ReplaceAround(a[|pat|..], pat, b, rep);
      AroundMatch(a, pat, b, rep);
    } else {
      NoStraddle(a, pat, b);
      ReplaceAround(a[1..], pat, b, rep);
      AroundSkip(a, pat, b, rep);
    }
  }

  /** An occurrence at the start of `a` is replaced in `a` and in `a + pat + b` alike. */
  lemma AroundMatch(a: string, pat: string, b: string, rep: string)
    requires |pat| > 0 && pat <= a
    requires ReplaceAll(a[|pat|..] + pat + b, pat, rep)
      == ReplaceAll(a[|pat|..], pat, rep) + rep + ReplaceAll(b, pat, rep)
    ensures ReplaceAll(a + pat + b, pat, rep)
      == ReplaceAll(a, pat, rep) + rep + ReplaceAll(b, pat, rep)
  {
    var t := a[|pat|..];
    PrefixRest(pat, a);
    ReplaceStepMatch(pat, t + pat + b, rep);
    ReplaceStepMatch(pat, t, rep);
    assert a + pat + b == pat + (t + pat + b) by {
      ConsAssoc(pat, t, pat, b);
    }
    ConsAssoc(rep, ReplaceAll(t, pat, rep), rep, ReplaceAll(b, pat, rep));
  }

  lemma PrefixRest<T>(p: seq<T>, a: seq<T>)
    requires p <= a
    ensures a == p + a[|p|..]
  {
  }

  /** With no occurrence at the start of `a`, none starts at the start of `a + pat + b`. */
  lemma NoStraddle(a: string, pat: string, b: string)
    requires |pat| > 0 && pat[0] !in pat[1..]
    requires |a| > 0 && !(pat <= a)
    ensures !(pat <= a + pat + b)
  {
    var s := a + pat + b;
    if |a| >= |pat| {
      assert s[..|pat|] == a[..|pat|];
    } else {
      assert s[|a|] == pat[0];
      assert pat[1..][|a| - 1] == pat[|a|];
    }
  }

  /** A first character of `a` where no occurrence starts is copied in both texts. */
  lemma AroundSkip(a: string, pat: string, b: string, rep: string)
    requires |pat| > 0 && |a| > 0 && !(pat <= a) && !(pat <= a + pat + b)
    requires ReplaceAll(a[1..] + pat + b, pat, rep)
      == ReplaceAll(a[1..], pat, rep) + rep + ReplaceAll(b, pat, rep)
    ensures ReplaceAll(a + pat + b, pat, rep)
      == ReplaceAll(a, pat, rep) + rep + ReplaceAll(b, pat, rep)
  {
    var s1 := a[1..] + pat + b;
    HeadSplit(a, pat, b);
    ReplaceStepSkip(a[0], s1, pat, rep);
    SkipHead(a, pat, rep);
    ConsAssoc([a[0]], ReplaceAll(a[1..], pat, rep), rep, ReplaceAll(b, pat, rep));
  }

  lemma ConcatNil<T>(x: seq<T>, e: seq<T>)
    requires e == []
    ensures x + e == x && e + x == x
  {
  }

  lemma JoinEmpty<T>(x: seq<T>, e: seq<T>, y: seq<T>)
    requires e == []
    ensures x + e + y == x + y
  {
  }

  lemma HeadSplit<T>(a: seq<T>, m: seq<T>, b: seq<T>)
    requires |a| > 0
    ensures a + m + b == [a[0]] + (a[1..] + m + b)
  {
    assert a == [a[0]] + a[1..];
  }

  lemma ConsAssoc<T>(h: seq<T>, x: seq<T>, m: seq<T>, y: seq<T>)
    ensures h + (x + m + y) == (h + x) + m + y
  {
  }

  lemma SkipHead(a: string, pat: string, rep: string)
    requires |pat| > 0 && |a| > 0 && !(pat <= a)
    ensures ReplaceAll(a, pat, rep) == [a[0]] + ReplaceAll(a[1..], pat, rep)
  {
    if |a| < |pat| {
      assert [a[0]] + a[1..] == a;
    }
  }

  /** Two occurrences of `pat`, separated and surrounded by text lacking its first
      character, are both replaced. */
  lemma ReplaceBetween(o: string, pat: string, mid: string, c: string, rep: string)
    requires |pat| > 0 && pat[0] !in o && pat[0] !in mid && pat[0] !in c
    ensures ReplaceAll(o + pat + mid + pat + c, pat, rep) == o + rep + mid + rep + c
  {
    var post := mid + pat + c;
    assert o + pat + mid + pat + c == o + pat + post;
    NoStartIn(o, pat, post);
    ReplaceFirstAt(o, pat, post, rep);
    ReplaceOnce(mid, pat, c, rep);
    assert o + rep + (mid + rep + c) == o + rep + mid + rep + c;
  }

  /** One occurrence of `pat` between texts lacking its first character is replaced. */
  lemma ReplaceOnce(a: string, pat: string, b: string, rep: string)
    requires |pat| > 0 && pat[0] !in a && pat[0] !in b
    ensures ReplaceAll(a + pat + b, pat, rep) == a + rep + b
  {
    NoStartIn(a, pat, b);
    ReplaceFirstAt(a, pat, b, rep);
    HeadAbsent(b, pat, rep);
  }

  /** Every occurrence of a pattern begins with its first character. */
  lemma {:induction false} ContainsHead(s: string, sub: string)
    requires |sub| > 0 && Contains(s, sub)
    ensures sub[0] in s
    decreases |s|
  {
    if !(sub <= s) {
      ContainsHead(s[1..], sub);
    }
  }

  /** Every character of a pattern that occurs in `s` is a character of `s`. */
  lemma {:induction false} ContainsChars(s: string, sub: string)
    requires Contains(s, sub)
    ensures forall k :: 0 <= k < |sub| ==> sub[k] in s
    decreases |s|
  {
    if sub <= s {
      assert forall k :: 0 <= k < |sub| ==> sub[k] == s[k];
    } else {
      ContainsChars(s[1..], sub);
      assert forall c :: c in s[1..] ==> c in s;
    }
  }

  /** A pattern with a character that `s` lacks does not occur in `s`. */
  lemma CharMissing(s: string, sub: string, k: nat)
    requires k < |sub| && sub[k] !in s
    ensures !Contains(s, sub)
  {
    if Contains(s, sub) {
      ContainsChars(s, sub);
      assert false;
    }
  }

  /** Replaces every `from` by `to`, character by character. */
  function ReplaceChar(s: string, from: char, to: char): (r: string)
    ensures |r| == |s|
    ensures forall k :: 0 <= k < |s| ==> r[k] == (if s[k] == from then to else s[k])
  {
    seq(|s|, k requires 0 <= k < |s| => if s[k] == from then to else s[k])
  }

  /** `s.replace(c, d)` for single characters is the character map. */
  lemma {:induction false} ReplaceSingleChar(s: string, from: char, to: char)
    ensures ReplaceAll(s, [from], [to]) == ReplaceChar(s, from, to)
    decreases |s|
  {
    if |s| > 0 {
      ReplaceSingleChar(s[1..], from, to);
      assert ReplaceChar(s, from, to) == [if s[0] == from then to else s[0]] + ReplaceChar(s[1..], from, to);
      if s[0] == from {
        assert [from] <= s && s[|[from]|..] == s[1..];
      }
    }
  }

  lemma {:induction false} LowerConcat(a: string, b: string)
    ensures Lower(a + b) == Lower(a) + Lower(b)
  {
    assert forall k :: 0 <= k < |a + b| ==> Lower(a + b)[k] == (Lower(a) + Lower(b))[k];
  }

  lemma {:induction false} FilterConcat(a: string, b: string, keep: char -> bool)
    ensures Filter(a + b, keep) == Filter(a, keep) + Filter(b, keep)
    decreases |a|
  {
    if |a| == 0 {
      assert a + b == b;
    } else {
      assert (a + b)[0] == a[0] && (a + b)[1..] == a[1..] + b;
      FilterConcat(a[1..], b, keep);
    }
  }

  /** Lower-casing a text around a character that is not upper-case. */
  lemma LowerAround(a: string, c: char, b: string)
    requires !IsUpper(c)
    ensures Lower(a + [c] + b) == Lower(a) + [c] + Lower(b)
  {
    LowerConcat(a + [c], b);
    LowerConcat(a, [c]);
    assert Lower([c]) == [c];
  }

  /** Filtering drops a rejected character wherever it stands. */
  lemma FilterSkips(x: string, c: char, y: string, keep: char -> bool)
    requires !keep(c)
    ensures Filter(x + [c] + y, keep) == Filter(x + y, keep)
  {
    FilterConcat(x + [c], y, keep);
    FilterConcat(x, [c], keep);
    FilterConcat(x, y, keep);
    assert Filter([c], keep) == [];
  }

  /** `sep.join(parts)`. */
  function JoinWith(sep: string, parts: seq<string>): string
    decreases |parts|
  {
    if |parts| == 0 then ""
    else if |parts| == 1 then parts[0]
    else parts[0] + sep + JoinWith(sep, parts[1..])
  }

  /** Joining two non-empty lists is joining their joins. */
  lemma {:induction false} JoinConcat(sep: string, xs: seq<string>, ys: seq<string>)
    requires |xs| > 0 && |ys| > 0
    ensures JoinWith(sep, xs + ys) == JoinWith(sep, xs) + sep + JoinWith(sep, ys)
    decreases |xs|
  {
    var zs := xs + ys;
    assert zs[0] == xs[0] && zs[1..] == xs[1..] + ys;
    if |xs| == 1 {
      assert zs[1..] == ys;
    } else {
      JoinConcat(sep, xs[1..], ys);
      var a, b, c := JoinWith(sep, xs[1..]), JoinWith(sep, ys), xs[0] + sep;
      assert JoinWith(sep, zs) == c + ((a + sep) + b);
      assert JoinWith(sep, xs) == c + a;
    }
  }

  /** The join of a non-empty list begins with its first element and ends with its last. */
  lemma {:induction false} JoinEnds(sep: string, xs: seq<string>)
    requires |xs| > 0
    ensures var j := JoinWith(sep, xs);
      |j| >= |xs[0]| && |j| >= |xs[|xs| - 1]|
      && j[..|xs[0]|] == xs[0] && j[|j| - |xs[|xs| - 1]|..] == xs[|xs| - 1]
    decreases |xs|
  {
    if |xs| > 1 {
      JoinEnds(sep, xs[1..]);
      var r := JoinWith(sep, xs[1..]);
      var j := JoinWith(sep, xs);
      assert j == xs[0] + sep + r;
      assert xs[1..][|xs[1..]| - 1] == xs[|xs| - 1];
      assert j[|j| - |r|..] == r;
    }
  }

  /** Splitting a join on a separator that no element holds gives the elements back. */
  lemma {:induction false} SplitJoin(xs: seq<string>, c: char)
    requires |xs| > 0 && forall i :: 0 <= i < |xs| ==> c !in xs[i]
    ensures SplitOn(JoinWith([c], xs), c) == xs
    decreases |xs|
  {
    var x0 := xs[0];
    if |xs| > 1 {
      var tail := xs[1..];
      var r := JoinWith([c], tail);
      var s := JoinWith([c], xs);
      JoinCons(c, xs);
      SplitAfterFirst(x0, r, c);
      SplitJoin(tail, c);
      assert [x0] + tail == xs;
    } else {
      SplitAbsent(x0, c);
    }
  }

  lemma JoinCons(c: char, xs: seq<string>)
    requires |xs| > 1
    ensures JoinWith([c], xs) == xs[0] + [c] + JoinWith([c], xs[1..])
  {
  }

  /** Splitting `x + [c] + r`, with no `c` in `x`, splits off `x` and then splits `r`. */
  lemma SplitAfterFirst(x: string, r: string, c: char)
    requires c !in x
    ensures SplitOn(x + [c] + r, c) == [x] + SplitOn(r, c)
  {
    var s := x + [c] + r;
    var n := |x|;
    forall k | 0 <= k < n ensures s[k] != c {
      assert s[k] == x[k];
    }
    assert s[n] == c;
    assert IndexOf(s, c) == n;
    assert s[..n] == x;
    assert s[n + 1..] == r;
  }

  lemma SplitAbsent(s: string, c: char)
    requires c !in s
    ensures SplitOn(s, c) == [s]
  {
    assert IndexOf(s, c) == |s|;
  }

  /** Index of the first `c` in `s`, or `|s|` when there is none. */
  function IndexOf(s: string, c: char): (i: nat)
    ensures i <= |s|
    ensures i < |s| ==> s[i] == c
    ensures forall k :: 0 <= k < i ==> s[k] != c
    decreases |s|
  {
    if |s| == 0 then 0 else if s[0] == c then 0 else 1 + IndexOf(s[1..], c)
  }

  /** Index just after the last `c` in `s`, or 0 when there is none
      (the slice point used by `os.path.dirname` and `basename`). */
  function AfterLast(s: string, c: char): (i: nat)
    ensures i <= |s|
    ensures i > 0 ==> s[i - 1] == c
    ensures forall k :: i <= k < |s| ==> s[k] != c
    decreases |s|
  {
    if |s| == 0 then 0 else if s[|s| - 1] == c then |s| else AfterLast(s[..|s| - 1], c)
  }

  /** `s.split(c)`: the pieces between occurrences of `c`, always at least one;
      joining them back with `c` gives `s` again. */
  function SplitOn(s: string, c: char): (r: seq<string>)
    ensures |r| >= 1
    ensures forall j :: 0 <= j < |r| ==> c !in r[j]
    ensures JoinWith([c], r) == s
    decreases |s|
  {
    var i := IndexOf(s, c);
    if i == |s| then [s]
    else
      var rest := SplitOn(s[i + 1..], c);
      assert s == s[..i] + [c] + s[i + 1..];
      [s[..i]] + rest
  }

  /** Characters other than `c` in front of the text are copied through. */
  lemma {:induction false} CollapseRunsPrefix(a: string, rest: string, c: char, rep: char)
    requires c !in a
    ensures CollapseRuns(a + rest, c, rep) == a + CollapseRuns(rest, c, rep)
    decreases |a|
  {
    if |a| > 0 {
      var s := a + rest;
      assert s[0] == a[0] && s[0] != c && s[1..] == a[1..] + rest;
      assert CollapseRuns(s, c, rep) == [a[0]] + CollapseRuns(a[1..] + rest, c, rep);
      CollapseRunsPrefix(a[1..], rest, c, rep);
      ConcatAssoc([a[0]], a[1..], CollapseRuns(rest, c, rep));
      assert [a[0]] + a[1..] == a;
    } else {
      assert a + rest == rest;
    }
  }

  /** A whole run of `c` followed by text without `c` becomes one `rep`. */
  lemma CollapseRunsRun(run: string, b: string, c: char, rep: char)
    requires |run| > 0 && (forall k :: 0 <= k < |run| ==> run[k] == c) && c !in b
    ensures CollapseRuns(run + b, c, rep) == [rep] + b
  {
    var s := run + b;
    assert s[0] == c;
    var n := LeadCount(s, x => x == c);
    assert forall k :: 0 <= k < |run| ==> s[k] == run[k];
    assert |b| > 0 ==> s[|run|] == b[0];
    assert n == |run|;
    assert s[|run|..] == b;
  }

  /** A run of `c` between two texts without `c` becomes one `rep`. */
  lemma CollapseRunsBetween(a: string, run: string, b: string, c: char, rep: char)
    requires c !in a && c !in b
    requires |run| > 0 && forall k :: 0 <= k < |run| ==> run[k] == c
    ensures CollapseRuns(a + run + b, c, rep) == a + [rep] + b
  {
    ConcatAssoc(a, run, b);
    CollapseRunsPrefix(a, run + b, c, rep);
    CollapseRunsRun(run, b, c, rep);
    ConcatAssoc(a, [rep], b);
  }

  /** `re.sub(c + '+', [rep], s)`: every maximal run of `c` becomes a single `rep`. */
  function CollapseRuns(s: string, c: char, rep: char): (r: string)
    ensures c != rep ==> c !in r
    ensures c !in s ==> r == s
    decreases |s|
  {
    if |s| == 0 then ""
    else if s[0] == c then [rep] + CollapseRuns(s[LeadCount(s, x => x == c)..], c, rep)
    else [s[0]] + CollapseRuns(s[1..], c, rep)
  }
}

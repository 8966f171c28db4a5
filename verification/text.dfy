/** The handful of Go `strings` operations the class-signature pipeline uses,
    over strings modelled as sequences of Unicode code points. */
module Text {
  import opened Wrappers

  /** Go's `unicode.IsSpace`, the separator test behind `strings.Fields`:
      the six ASCII spaces, NEL, NO-BREAK SPACE and the Unicode White_Space
      characters above Latin-1. */
  predicate IsSpace(c: char) {
    || c == ' ' || c == '\t' || c == '\n' || c == '\r'
    || c == '\U{000B}' || c == '\U{000C}'
    || c == '\U{0085}' || c == '\U{00A0}' || c == '\U{1680}'
    || ('\U{2000}' <= c <= '\U{200A}')
    || c == '\U{2028}' || c == '\U{2029}' || c == '\U{202F}'
    || c == '\U{205F}' || c == '\U{3000}'
  }

  /** A field of `strings.Fields`: non-empty and free of white space. */
  predicate IsToken(t: string) {
    t != [] && forall k :: 0 <= k < |t| ==> !IsSpace(t[k])
  }

  /** `sep` occurs in `s` starting at position `i`. */
  predicate IsAt(s: string, sep: string, i: nat) {
    i + |sep| <= |s| && s[i..i + |sep|] == sep
  }

  ghost predicate Contains(s: string, sep: string) {
    exists i: nat :: IsAt(s, sep, i)
  }

  /** The first occurrence of `sep` in `s` at or after `k` (`strings.Index`
      when `k` is 0). */
  function IndexFrom(s: string, sep: string, k: nat): (r: Option<nat>)
    ensures r.Some? ==> k <= r.value && IsAt(s, sep, r.value)
    ensures r.Some? ==> forall j: nat :: k <= j < r.value ==> !IsAt(s, sep, j)
    ensures r.None? <==> forall j: nat :: k <= j ==> !IsAt(s, sep, j)
    decreases |s| - k
  {
    if |s| < k + |sep| then None
    else if s[k..k + |sep|] == sep then assert IsAt(s, sep, k); Some(k)
    else IndexFrom(s, sep, k + 1)
  }

  datatype CutResult = CutResult(before: string, after: string, found: bool)

  /** Go's `strings.Cut`: splits `s` around the first occurrence of `sep`;
      when there is none, `before` is all of `s` and `after` is empty. */
  function Cut(s: string, sep: string): (r: CutResult)
    ensures r.found <==> Contains(s, sep)
    ensures r.found ==> s == r.before + sep + r.after && IsAt(s, sep, |r.before|)
    ensures r.found ==> forall j: nat :: j < |r.before| ==> !IsAt(s, sep, j)
    ensures !r.found ==> r.before == s && r.after == []
  {
    match IndexFrom(s, sep, 0)
    case None => CutResult(s, [], false)
    case Some(i) =>
      assert s == s[..i] + sep + s[i + |sep|..];
      CutResult(s[..i], s[i + |sep|..], true)
  }

  /** `strings.Cut` splits at the first occurrence and nowhere else: given
      the first position where `sep` occurs, its result is determined. */
  lemma CutAtFirst(s: string, sep: string, i: nat)
    requires IsAt(s, sep, i)
    requires forall j: nat :: j < i ==> !IsAt(s, sep, j)
    ensures Cut(s, sep) == CutResult(s[..i], s[i + |sep|..], true)
  {
  }

  /** The part before the first `sep` holds no `sep`. */
  lemma CutBeforeAvoids(s: string, sep: string)
    requires sep != []
    requires Cut(s, sep).found
    ensures !Contains(Cut(s, sep).before, sep)
  {
    var before := Cut(s, sep).before;
    assert s[..|before|] == before;
    forall i: nat
      ensures !IsAt(before, sep, i)
    {
      if i + |sep| <= |before| {
        assert !IsAt(s, sep, i);
        assert before[i..i + |sep|] == s[i..i + |sep|];
      }
    }
  }

  /** The empty string holds no non-empty `sep`. */
  lemma EmptyAvoids(sep: string)
    requires sep != []
    ensures !Contains([], sep)
  {
  }

  /** When `x` never holds the first character of `sep`, the first `sep`
      in `x + sep + rest` is the one right after `x`. */
  lemma CutAfterPrefix(x: string, sep: string, rest: string)
    requires sep != []
    requires forall k :: 0 <= k < |x| ==> x[k] != sep[0]
    ensures Cut(x + sep + rest, sep) == CutResult(x, rest, true)
  {
    var s := x + sep + rest;
    forall j: nat | j < |x|
      ensures !IsAt(s, sep, j)
    {
      assert s[j..j + |sep|][0] == x[j];
    }
    assert s[|x|..|x| + |sep|] == sep;
    CutAtFirst(s, sep, |x|);
    assert s[..|x|] == x && s[|x| + |sep|..] == rest;
  }

  /** A prefix that holds no "{{" and does not end in `{` cannot take part
      in the first "{{": the cut of `p + s` is the cut of `s`, shifted. */
  lemma OpenAfterPrefix(p: string, s: string)
    requires !Contains(p, "{{") && (p != [] ==> p[|p| - 1] != '{')
    ensures Cut(p + s, "{{").found == Cut(s, "{{").found
    ensures Cut(s, "{{").found ==>
      Cut(p + s, "{{") == CutResult(p + Cut(s, "{{").before, Cut(s, "{{").after, true)
  {
    PrefixHoldsNoOpen(p, s);
    if Cut(s, "{{").found {
      OpenAfterPrefixFound(p, s);
    } else {
      forall j: nat
        ensures !IsAt(p + s, "{{", j)
      {
        if j >= |p| {
          OpenShift(p, s, j - |p|);
        }
      }
    }
  }

  lemma OpenAfterPrefixFound(p: string, s: string)
    requires forall j: nat :: j < |p| ==> !IsAt(p + s, "{{", j)
    requires Cut(s, "{{").found
    ensures Cut(p + s, "{{") == CutResult(p + Cut(s, "{{").before, Cut(s, "{{").after, true)
  {
    var c := Cut(s, "{{");
    var i := |c.before|;
    NoOpenBefore(p, s, i);
    OpenShift(p, s, i);
    CutAtFirst(p + s, "{{", |p| + i);
    PrefixConcat(p, c.before, "{{", c.after);
  }

  /** Slicing `p + (b + m + a)` around `m`. */
  lemma PrefixConcat<T>(p: seq<T>, b: seq<T>, m: seq<T>, a: seq<T>)
    ensures (p + (b + m + a))[..|p| + |b|] == p + b
    ensures (p + (b + m + a))[|p| + |b| + |m|..] == a
  {
    assert p + (b + m + a) == (p + b) + m + a;
  }

  /** With no "{{" inside `p` and none in `s` before `i`, `p + s` has none
      before `|p| + i`. */
  lemma NoOpenBefore(p: string, s: string, i: nat)
    requires forall j: nat :: j < |p| ==> !IsAt(p + s, "{{", j)
    requires forall j: nat :: j < i ==> !IsAt(s, "{{", j)
    ensures forall j: nat :: j < |p| + i ==> !IsAt(p + s, "{{", j)
  {
    forall j: nat | |p| <= j < |p| + i
      ensures !IsAt(p + s, "{{", j)
    {
      var k: nat := j - |p|;
      assert !IsAt(s, "{{", k);
      OpenShift(p, s, k);
    }
  }

  /** "{{" occurs in `p + s` just after `p` where it occurs in `s`. */
  lemma OpenShift(p: string, s: string, j: nat)
    ensures IsAt(p + s, "{{", |p| + j) <==> IsAt(s, "{{", j)
  {
    if j + 2 <= |s| {
      assert (p + s)[|p| + j..|p| + j + 2] == s[j..j + 2];
    }
  }

  /** No "{{" of `p + s` starts inside such a prefix `p`. */
  lemma PrefixHoldsNoOpen(p: string, s: string)
    requires !Contains(p, "{{") && (p != [] ==> p[|p| - 1] != '{')
    ensures forall j: nat :: j < |p| ==> !IsAt(p + s, "{{", j)
  {
    var t := p + s;
    forall j: nat | j < |p|
      ensures !IsAt(t, "{{", j)
    {
      if j + 2 <= |p| {
        assert t[j..j + 2] == p[j..j + 2];
        assert !IsAt(p, "{{", j);
      } else if j + 2 <= |t| {
        assert t[j..j + 2][0] == p[|p| - 1];
      }
    }
  }

  /** Length of the longest space-free prefix of `s`. */
  function WordLen(s: string): (n: nat)
    ensures n <= |s|
    ensures forall k :: 0 <= k < n ==> !IsSpace(s[k])
    ensures n < |s| ==> IsSpace(s[n])
  {
    if s == [] || IsSpace(s[0]) then 0 else 1 + WordLen(s[1..])
  }

  /** Go's `strings.Fields`: the maximal runs of non-space characters, in order. */
  function Fields(s: string): (r: seq<string>)
    ensures forall k :: 0 <= k < |r| ==> IsToken(r[k])
    decreases |s|
  {
    if s == [] then []
    else if IsSpace(s[0]) then Fields(s[1..])
    else
      var n := WordLen(s);
      [s[..n]] + Fields(s[n..])
  }

  /** Go's `strings.Join(ts, " ")`. */
  function Join(ts: seq<string>): string {
    if ts == [] then []
    else if |ts| == 1 then ts[0]
    else ts[0] + " " + Join(ts[1..])
  }

  /** Go's `strings.Count(s, " ")`: the number of single spaces in `s`. */
  function Spaces(s: string): nat {
    if s == [] then 0 else (if s[0] == ' ' then 1 else 0) + Spaces(s[1..])
  }

  lemma {:induction false} SpacesAppend(a: string, b: string)
    ensures Spaces(a + b) == Spaces(a) + Spaces(b)
  {
    if a == [] {
      assert a + b == b;
    } else {
      assert (a + b)[1..] == a[1..] + b;
      SpacesAppend(a[1..], b);
    }
  }

  /** A space-free word followed by anything splits after the word. */
  lemma {:induction false} WordLenOfWord(t: string, rest: string)
    requires forall k :: 0 <= k < |t| ==> !IsSpace(t[k])
    requires rest != [] ==> IsSpace(rest[0])
    ensures WordLen(t + rest) == |t|
  {
    if t != [] {
      assert (t + rest)[1..] == t[1..] + rest;
      WordLenOfWord(t[1..], rest);
    }
  }

  /** `strings.Fields` recovers the tokens `strings.Join` was given: the two
      are inverse on lists of non-empty, space-free tokens. */
  lemma {:induction false} FieldsOfJoin(ts: seq<string>)
    requires forall k :: 0 <= k < |ts| ==> IsToken(ts[k])
    ensures Fields(Join(ts)) == ts
  {
    if ts == [] {
    } else if |ts| == 1 {
      var t := ts[0];
      WordLenOfWord(t, []);
      assert t + [] == t;
      assert t[..|t|] == t && t[|t|..] == [];
    } else {
      var t, rest := ts[0], Join(ts[1..]);
      var s := t + " " + rest;
      assert s == t + (" " + rest);
      WordLenOfWord(t, " " + rest);
      assert s[..|t|] == t;
      assert s[|t|..] == " " + rest;
      assert (" " + rest)[1..] == rest;
      FieldsOfJoin(ts[1..]);
      assert ts == [t] + ts[1..];
    }
  }

  /** A string has no fields exactly when it is all white space. */
  lemma {:induction false} FieldsEmptyIffBlank(s: string)
    ensures Fields(s) == [] <==> forall k :: 0 <= k < |s| ==> IsSpace(s[k])
    decreases |s|
  {
    if s != [] && IsSpace(s[0]) {
      FieldsEmptyIffBlank(s[1..]);
      if forall k :: 0 <= k < |s[1..]| ==> IsSpace(s[1..][k]) {
        forall k | 0 <= k < |s|
          ensures IsSpace(s[k])
        {
          if k > 0 { assert s[k] == s[1..][k - 1]; }
        }
      }
    }
  }

  /** A word ends at the first white space, whatever follows it. */
  lemma {:induction false} WordLenSplit(a: string, rest: string)
    requires rest != [] && IsSpace(rest[0])
    ensures WordLen(a + rest) == WordLen(a)
  {
    if a == [] {
      assert a + rest == rest;
    } else if !IsSpace(a[0]) {
      assert (a + rest)[1..] == a[1..] + rest;
      WordLenSplit(a[1..], rest);
    }
  }

  /** Any white-space character separates fields: the fields on either side
      of it are kept, in order, and nothing joins across it.  With
      `FieldsOfJoin` of a single token and `FieldsEmptyIffBlank` this fixes
      `Fields` on every string. */
  lemma {:induction false} FieldsSplit(a: string, c: char, b: string)
    requires IsSpace(c)
    ensures Fields(a + [c] + b) == Fields(a) + Fields(b)
    decreases |a|
  {
    var s := a + [c] + b;
    if a == [] {
      assert s[1..] == b;
    } else if IsSpace(a[0]) {
      assert s[1..] == a[1..] + [c] + b;
      FieldsSplit(a[1..], c, b);
    } else {
      assert s == a + ([c] + b);
      WordLenSplit(a, [c] + b);
      var n := WordLen(a);
      assert s[..n] == a[..n];
      assert s[n..] == a[n..] + [c] + b;
      FieldsSplit(a[n..], c, b);
    }
  }

  /** Every field of `s` is a contiguous piece of `s`. */
  lemma {:induction false} FieldsAreSlices(s: string, k: nat)
    requires k < |Fields(s)|
    ensures exists a: nat, b: nat :: a <= b <= |s| && Fields(s)[k] == s[a..b]
    decreases |s|
  {
    if IsSpace(s[0]) {
      FieldsAreSlices(s[1..], k);
      var a: nat, b: nat :| a <= b <= |s[1..]| && Fields(s[1..])[k] == s[1..][a..b];
      assert s[1..][a..b] == s[a + 1..b + 1];
    } else {
      var n := WordLen(s);
      if k > 0 {
        assert Fields(s)[k] == Fields(s[n..])[k - 1];
        FieldsAreSlices(s[n..], k - 1);
        var a: nat, b: nat :| a <= b <= |s[n..]| && Fields(s[n..])[k - 1] == s[n..][a..b];
        assert s[n..][a..b] == s[a + n..b + n];
      } else {
        assert Fields(s)[0] == s[0..n];
      }
    }
  }

  /** A piece of a string cannot contain what the string does not. */
  lemma SliceContains(s: string, sep: string, a: nat, b: nat)
    requires a <= b <= |s|
    requires !Contains(s, sep)
    ensures !Contains(s[a..b], sep)
  {
    if Contains(s[a..b], sep) {
      var i: nat :| IsAt(s[a..b], sep, i);
      assert s[a + i..a + i + |sep|] == sep by {
        forall m | 0 <= m < |sep|
          ensures s[a + i + m] == sep[m]
        {
          assert sep[m] == s[a..b][i..i + |sep|][m];
        }
      }
      assert IsAt(s, sep, a + i);
    }
  }

  /** A field of a string free of `sep` is itself free of `sep`. */
  lemma FieldsAvoid(s: string, sep: string)
    requires !Contains(s, sep)
    ensures forall k :: 0 <= k < |Fields(s)| ==> !Contains(Fields(s)[k], sep)
  {
    forall k | 0 <= k < |Fields(s)|
      ensures !Contains(Fields(s)[k], sep)
    {
      FieldsAreSlices(s, k);
      var a: nat, b: nat :| a <= b <= |s| && Fields(s)[k] == s[a..b];
      SliceContains(s, sep, a, b);
    }
  }

  /** A string without `{` holds no "{{". */
  lemma NoBraceNoOpen(s: string)
    requires forall k :: 0 <= k < |s| ==> s[k] != '{'
    ensures !Contains(s, "{{")
  {
    forall i: nat
      ensures !IsAt(s, "{{", i)
    {
      if i + 2 <= |s| {
        assert s[i..i + 2][0] == s[i];
      }
    }
  }

  /** A single space between two pieces free of "{{" cannot complete one. */
  lemma NoOpenAcrossSpace(x: string, y: string)
    requires !Contains(x, "{{") && !Contains(y, "{{")
    ensures !Contains(x + " " + y, "{{")
  {
    var z := x + " " + y;
    if Contains(z, "{{") {
      var i: nat :| IsAt(z, "{{", i);
      assert z[i] == '{' && z[i + 1] == '{';
      if i + 2 <= |x| {
        assert z[i..i + 2] == x[i..i + 2];
        assert IsAt(x, "{{", i);
      } else if i >= |x| + 1 {
        var j: nat := i - |x| - 1;
        assert z[i..i + 2] == y[j..j + 2];
        assert IsAt(y, "{{", j);
      }
    }
  }

  /** Joining tokens free of "{{" with single spaces introduces none. */
  lemma {:induction false} JoinAvoidsOpen(ts: seq<string>)
    requires forall k :: 0 <= k < |ts| ==> !Contains(ts[k], "{{")
    ensures !Contains(Join(ts), "{{")
  {
    if ts == [] {
      assert forall i: nat :: !IsAt([], "{{", i);
    } else if |ts| > 1 {
      JoinAvoidsOpen(ts[1..]);
      NoOpenAcrossSpace(ts[0], Join(ts[1..]));
    }
  }

  /** Joining space-free tokens puts exactly one space between neighbours,
      so `strings.Count(_, " ")` of the join is one less than the token count. */
  lemma {:induction false} SpacesOfJoin(ts: seq<string>)
    requires forall k :: 0 <= k < |ts| ==> IsToken(ts[k])
    ensures Spaces(Join(ts)) == if ts == [] then 0 else |ts| - 1
  {
    if ts == [] {
    } else if |ts| == 1 {
      NoSpaceCount(ts[0]);
    } else {
      SpacesOfJoin(ts[1..]);
      NoSpaceCount(ts[0]);
      SpacesAppend(ts[0], " ");
      SpacesAppend(ts[0] + " ", Join(ts[1..]));
    }
  }

  lemma {:induction false} NoSpaceCount(t: string)
    requires forall k :: 0 <= k < |t| ==> !IsSpace(t[k])
    ensures Spaces(t) == 0
  {
    if t != [] {
      NoSpaceCount(t[1..]);
    }
  }
}

/** `classSet` (extract/extract.go): the normaliser that turns one raw `class`
    attribute value into a canonical signature: placeholders cut out, tokens
    split on white space, sorted bytewise, deduplicated and joined with single
    spaces. */
module Normalize {
  import opened Text
  import opened Order

  /** The loop at the head of `classSet`: while the value holds a `{{`, cut
      from the first `{{` through the next `}}` and put a single space in its
      place.  With no `}}` after it, `strings.Cut` yields an empty suffix, so
      an unclosed `{{` swallows the rest of the value.  Each round removes at
      least the two characters of `{{` and adds one space, so the value
      strictly shrinks and the loop ends. */
  function StripPlaceholders(s: string): (r: string)
    ensures !Contains(r, "{{")
    ensures |r| <= |s|
    ensures !Contains(s, "{{") ==> r == s
    decreases |s|
  {
    var open := Cut(s, "{{");
    if !open.found then s
    else StripPlaceholders(open.before + " " + Cut(open.after, "}}").after)
  }

  /** The tokens of a value after placeholders are cut out, in the order and
      multiplicity `strings.Fields` finds them. */
  function RawTokens(s: string): seq<string> {
    Fields(StripPlaceholders(s))
  }

  /** A canonical signature: the single-space join of its own fields, which
      are strictly increasing in bytewise order, and free of `{{`. */
  ghost predicate IsSignature(r: string) {
    && r == Join(Fields(r))
    && StrictlySorted(Fields(r))
    && !Contains(r, "{{")
  }

  /** The list `classSet` joins: the raw tokens sorted and compacted. */
  lemma CanonicalTokens(s: string)
    ensures var ts := Compact(Sort(RawTokens(s)));
      && StrictlySorted(ts)
      && (forall t :: t in ts <==> t in RawTokens(s))
      && (forall k :: 0 <= k < |ts| ==> IsToken(ts[k]) && !Contains(ts[k], "{{"))
  {
    var raw := RawTokens(s);
    var ts := Compact(Sort(raw));
    FieldsAvoid(StripPlaceholders(s), "{{");
    forall t
      ensures t in Sort(raw) <==> t in raw
    {
      assert t in Sort(raw) <==> t in multiset(Sort(raw));
    }
    forall k | 0 <= k < |ts|
      ensures IsToken(ts[k]) && !Contains(ts[k], "{{")
    {
      assert ts[k] in raw;
    }
  }

  /** `classSet`.  The result is a canonical signature whose tokens are
      exactly the fields of the placeholder-stripped value: nothing lost,
      nothing added, order and repetition forgotten. */
  function ClassSet(s: string): (r: string)
    ensures IsSignature(r)
    ensures forall t :: t in Fields(r) <==> t in RawTokens(s)
  {
    var ts := Compact(Sort(RawTokens(s)));
    CanonicalTokens(s);
    FieldsOfJoin(ts);
    JoinAvoidsOpen(ts);
    Join(ts)
  }

  /** Two values normalise to the same signature exactly when they have the
      same set of raw tokens, so token order and repetition do not matter. */
  lemma SameTokensSameSignature(a: string, b: string)
    ensures ClassSet(a) == ClassSet(b) <==>
      (forall t :: t in RawTokens(a) <==> t in RawTokens(b))
  {
    if forall t :: t in RawTokens(a) <==> t in RawTokens(b) {
      StrictlySortedUnique(Fields(ClassSet(a)), Fields(ClassSet(b)));
    }
  }

  /** The signatures are exactly the fixed points of `classSet`. */
  lemma SignatureIsFixedPoint(r: string)
    ensures ClassSet(r) == r <==> IsSignature(r)
  {
    if IsSignature(r) {
      var ts := Fields(r);
      assert RawTokens(r) == ts;
      assert Sorted(ts);
      SortOfSorted(ts);
      CompactOfStrictlySorted(ts);
    }
  }

  /** `classSet` is idempotent: normalising a signature gives it back. */
  lemma ClassSetIdempotent(s: string)
    ensures ClassSet(ClassSet(s)) == ClassSet(s)
  {
    SignatureIsFixedPoint(ClassSet(s));
  }

  /** A value normalises to the empty signature exactly when nothing but
      white space is left once placeholders are cut. */
  lemma EmptySignature(s: string)
    ensures ClassSet(s) == [] <==> RawTokens(s) == []
  {
    var r := ClassSet(s);
    assert RawTokens(s) != [] ==> RawTokens(s)[0] in RawTokens(s);
    assert Fields(r) != [] ==> Fields(r)[0] in Fields(r);
    assert r == [] ==> Fields(r) == [];
  }

  /** The empty value, and any value of white space only, normalises to the
      empty signature. */
  lemma BlankValue(s: string)
    requires forall k :: 0 <= k < |s| ==> IsSpace(s[k])
    ensures ClassSet(s) == []
  {
    NoBraceNoOpen(s);
    FieldsEmptyIffBlank(s);
    EmptySignature(s);
  }

  /** An unclosed `{{` discards everything after it: the value becomes the
      part before the first `{{` followed by one space. */
  lemma UnclosedPlaceholder(s: string)
    requires Cut(s, "{{").found
    requires !Contains(Cut(s, "{{").after, "}}")
    ensures StripPlaceholders(s) == Cut(s, "{{").before + " "
  {
    var before := Cut(s, "{{").before;
    CutBeforeAvoids(s, "{{");
    EmptyAvoids("{{");
    NoOpenAcrossSpace(before, []);
    assert before + " " + [] == before + " ";
  }

  /** The text in front of the first placeholder survives: a prefix with no
      `{{` that does not end in `{` is kept verbatim, and only what follows
      it is stripped. */
  lemma {:induction false} StripPrefix(p: string, s: string)
    requires !Contains(p, "{{") && (p != [] ==> p[|p| - 1] != '{')
    ensures StripPlaceholders(p + s) == p + StripPlaceholders(s)
    decreases |s|
  {
    OpenAfterPrefix(p, s);
    var open := Cut(s, "{{");
    if open.found {
      var tail := Cut(open.after, "}}").after;
      Regroup(p, open.before, " ", tail);
      StripPrefix(p, open.before + " " + tail);
    }
  }

  /** One round of the loop, with the part before the `{{` kept as it is:
      everything up to the first `{{` is kept, the placeholder becomes one
      space, and stripping goes on after the next `}}`. */
  lemma StripStep(s: string)
    requires Cut(s, "{{").found
    ensures var open := Cut(s, "{{");
      StripPlaceholders(s) ==
        open.before + " " + StripPlaceholders(Cut(open.after, "}}").after)
  {
    var open := Cut(s, "{{");
    CutBeforeAvoids(s, "{{");
    EmptyAvoids("{{");
    NoOpenAcrossSpace(open.before, []);
    assert open.before + " " + [] == open.before + " ";
    StripPrefix(open.before + " ", Cut(open.after, "}}").after);
  }

  /** A closed placeholder becomes a single separator: with no `{` before it
      and no `}` inside it, `x{{y}}z` strips to `x`, one space, and `z`
      stripped in turn. */
  lemma ClosedPlaceholder(x: string, y: string, z: string)
    requires forall k :: 0 <= k < |x| ==> x[k] != '{'
    requires forall k :: 0 <= k < |y| ==> y[k] != '}'
    ensures StripPlaceholders(x + "{{" + y + "}}" + z) == x + " " + StripPlaceholders(z)
  {
    var s := x + "{{" + y + "}}" + z;
    var after := y + "}}" + z;
    RegroupOpen(x, y, z);
    CutAfterPrefix(x, "{{", after);
    CutAfterPrefix(y, "}}", z);
    StripStep(s);
  }

  /** `x{{y}}z` read as `x`, `{{` and the rest. */
  lemma RegroupOpen(x: string, y: string, z: string)
    ensures x + "{{" + y + "}}" + z == x + "{{" + (y + "}}" + z)
  {
  }

  /** `a + b + c + d` with `a` split off. */
  lemma Regroup<T>(a: seq<T>, b: seq<T>, c: seq<T>, d: seq<T>)
    ensures a + b + c + d == a + (b + c + d)
  {
  }

  /** The separator count the report filters on: a signature of n >= 1 tokens
      holds n - 1 spaces, and the empty signature none. */
  lemma SignatureSpaces(r: string)
    requires IsSignature(r)
    ensures Spaces(r) == if r == [] then 0 else |Fields(r)| - 1
  {
    SpacesOfJoin(Fields(r));
  }
}

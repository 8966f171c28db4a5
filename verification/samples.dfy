/** Worked examples of the pipeline: small concrete values, and one report
    stated for any two signatures. */
module Samples {
  import opened Text
  import opened Order
  import opened Normalize
  import opened Rank

  lemma TwoTokens()
    ensures Fields("a b") == ["a", "b"]
    ensures IsSignature("a b")
  {
    assert Join(["a", "b"]) == "a b";
    FieldsOfJoin(["a", "b"]);
    NoBraceNoOpen("a b");
    assert Less("a", "b");
  }

  lemma RawTokensOfPlain()
    ensures RawTokens("b a a") == ["b", "a", "a"]
    ensures RawTokens("a b") == ["a", "b"]
  {
    NoBraceNoOpen("b a a");
    NoBraceNoOpen("a b");
    assert Join(["b", "a", "a"]) == "b a a";
    assert Join(["a", "b"]) == "a b";
    FieldsOfJoin(["b", "a", "a"]);
    FieldsOfJoin(["a", "b"]);
  }

  /** Token order and repetition are forgotten: "b a a" and "a b" share the
      signature "a b". */
  lemma ReorderedDuplicates()
    ensures ClassSet("b a a") == ClassSet("a b") == "a b"
  {
    TwoTokens();
    SignatureIsFixedPoint("a b");
    RawTokensOfPlain();
    SameTokensSameSignature("b a a", "a b");
  }

  /** Two placeholders around a placeholder-free run of text `w` each leave
      one space, and the fields of `w` are what remains. */
  lemma PlaceholdersAround(y1: string, w: string, y2: string)
    requires forall k :: 0 <= k < |y1| ==> y1[k] != '}'
    requires forall k :: 0 <= k < |w| ==> w[k] != '{'
    requires forall k :: 0 <= k < |y2| ==> y2[k] != '}'
    ensures StripPlaceholders("{{" + y1 + "}}" + w + "{{" + y2 + "}}") == " " + w + " "
    ensures RawTokens("{{" + y1 + "}}" + w + "{{" + y2 + "}}") == Fields(w)
  {
    StripAround(y1, w, y2);
    FieldsPadded(w);
  }

  lemma StripAround(y1: string, w: string, y2: string)
    requires forall k :: 0 <= k < |y1| ==> y1[k] != '}'
    requires forall k :: 0 <= k < |w| ==> w[k] != '{'
    requires forall k :: 0 <= k < |y2| ==> y2[k] != '}'
    ensures StripPlaceholders("{{" + y1 + "}}" + w + "{{" + y2 + "}}") == " " + w + " "
  {
    var tail := w + "{{" + y2 + "}}";
    SplitAfterThird("{{", y1, "}}", w, "{{", y2, "}}");
    EmptyAvoids("{{");
    assert StripPlaceholders([]) == [];
    ClosedPlaceholder(w, y2, []);
    assert w + " " + [] == w + " ";
    assert StripPlaceholders(tail) == w + " ";
    ClosedPlaceholder([], y1, tail);
    Padding(" ", w);
  }

  lemma Padding<T>(c: seq<T>, w: seq<T>)
    ensures [] + c + (w + c) == c + w + c
  {
  }

  /** Regrouping a seven-part concatenation after its third part, and padding
      both halves with an empty prefix and suffix. */
  lemma SplitAfterThird<T>(a: seq<T>, b: seq<T>, c: seq<T>, d: seq<T>, e: seq<T>, f: seq<T>, g: seq<T>)
    ensures a + b + c + d + e + f + g == [] + a + b + c + (d + e + f + g)
    ensures d + e + f + g == d + e + f + g + []
  {
  }

  /** Spaces around a text add no field. */
  lemma FieldsPadded(w: string)
    ensures Fields(" " + w + " ") == Fields(w)
  {
    assert " " + w + " " == [] + [' '] + (w + " ");
    FieldsSplit([], ' ', w + " ");
    assert w + " " == w + [' '] + [];
    FieldsSplit(w, ' ', []);
  }

  lemma TokensBetween(v: string)
    requires v == "{{" + "x" + "}}" + "b a" + "{{" + "y" + "}}"
    ensures RawTokens(v) == ["b", "a"]
  {
    PlaceholdersAround("x", "b a", "y");
    FieldsOfSwapped();
  }

  lemma FieldsOfSwapped()
    ensures Fields("b a") == ["b", "a"]
  {
    assert Join(["b", "a"]) == "b a";
    FieldsOfJoin(["b", "a"]);
  }

  /** The value "{{x}}b a{{y}}", written here as its pieces, normalises to
      "a b": both placeholders go and the tokens between them are sorted. */
  lemma TwoPlaceholders(v: string)
    requires v == "{{" + "x" + "}}" + "b a" + "{{" + "y" + "}}"
    ensures ClassSet(v) == "a b"
  {
    TokensBetween(v);
    RawTokensOfPlain();
    TwoTokens();
    SignatureIsFixedPoint("a b");
    SameTokensSameSignature(v, "a b");
  }

  /** The empty value has the empty signature. */
  lemma EmptyValue()
    ensures ClassSet("") == ""
  {
  }

  /** Three occurrences of a two-class signature reach the default thresholds;
      a one-class signature never passes the default `names`. */
  lemma DefaultReport(a: string, c: string)
    requires a != c && Spaces(a) >= DefaultNames && Spaces(c) < DefaultNames
    ensures Ranking([a, c, a, a], DefaultNames, DefaultThreshold) == [(a, 3)]
  {
    var all := [a, c, a, a];
    assert multiset(all)[a] == 3;
    RankingSingle(all, a, DefaultNames, DefaultThreshold);
  }
}

/** Worked cases of the lint, each stated over the model's own definitions. */
module Scenarios {
  import opened Text
  import opened Classifier
  import opened Document
  import opened Collector
  import opened Evaluator
  import opened Sequences
  import opened Batch

  /** A whole placeholder is legal; the same placeholder followed by a word is not. */
  lemma PlaceholderVerdicts()
    ensures IsLegal("{{count}}")
    ensures !IsLegal("{{count}} items")
  {
    var p := "{{count}}";
    assert BraceWrapped(p);
    var s := "{{count}} items";
    assert s[2] == 'c' && IsAsciiLetter(s[2]);
    assert !LeadPeelable(s) by { assert s[0] == '{' && s[1] == '{'; }
    assert !TrailPeelable(s) by { assert IsAsciiLetter(s[|s| - 1]); }
    assert !BraceWrapped(s) && !OpensInterpolation(s);
    assert !StartsWithMarker(s) by { assert s[0] != '$'; }
    assert !EndsWithMarker(s) by { assert s[|s| - 1] != ']'; }
  }

  /** Marker-wrapped text is judged by the text alone. */
  lemma MarkedWordIsIllegal()
    ensures !IsLegal(Marker + "Hello" + Marker)
  {
    MarkersTransparent("Hello");
    LetterEndsIsIllegal("Hello");
  }

  /** The attribute key hides everything beneath it: an element with an `id` attribute
      and a `text` child collects only the child. */
  lemma AttributesAreSkipped()
    ensures Walk(Obj([Field("$", Obj([Field("id", Str("Foo Bar"))])), Field("text", Str("Hi"))]))
            == ["Hi"]
  {
    var attrs := Field("$", Obj([Field("id", Str("Foo Bar"))]));
    var text := Field("text", Str("Hi"));
    assert SkipsKey(attrs.key);
    assert !SkipsKey(text.key) by { assert text.key[0] != 'g' && text.key[0] != 's'; }
    assert [attrs, text][..1] == [attrs];
    assert FieldLeaves([attrs]) == FieldLeaves([]) + FieldContribution(attrs);
  }

  /** The document holding a page whose title is "Welcome" and whose code is "{{code}}". */
  const WelcomePage: Node :=
    Obj([Field("page", Obj([Field("title", Str("Welcome")), Field("code", Str("{{code}}"))]))])

  /** Two values that are already trimmed are reported in order, each iff it is illegal. */
  lemma TwoTrimmedValues(a: string, b: string)
    requires Trim(a) == a && Trim(b) == b
    ensures Failures([a, b]) == (if IsLegal(a) then [] else [a]) + (if IsLegal(b) then [] else [b])
  {
    var text := [a, b];
    assert text[..1] == [a];
    assert TrimAll([a]) == TrimAll([]) + [a];
    assert TrimAll(text) == text;
    assert Filter(text[..1], Rejects) == Filter([], Rejects) + (if Rejects(a) then [a] else []);
  }

  /** That page collects both values, in document order. */
  lemma WelcomePageLeaves()
    ensures Walk(WelcomePage) == ["Welcome", "{{code}}"]
  {
    var title := Field("title", Str("Welcome"));
    var code := Field("code", Str("{{code}}"));
    var page := Field("page", Obj([title, code]));
    assert !SkipsKey(page.key) by { assert page.key[0] != 'g' && page.key[0] != 's'; }
    assert !SkipsKey(title.key) by { assert title.key[0] != 'g' && title.key[0] != 's'; }
    assert !SkipsKey(code.key) by { assert code.key[0] != 'g' && code.key[0] != 's'; }
    assert [title, code][..1] == [title];
    assert FieldLeaves([title]) == FieldLeaves([]) + FieldContribution(title);
    assert FieldLeaves([page]) == FieldLeaves([]) + FieldContribution(page);
  }

  /** The page's two values have no surrounding whitespace. */
  lemma WelcomeTrimmed()
    ensures Trim("Welcome") == "Welcome" && Trim("{{code}}") == "{{code}}"
  {
    TrimOfTrimmed("Welcome");
    TrimOfTrimmed("{{code}}");
  }

  /** The title is illegal and the code legal. */
  lemma WelcomeVerdicts()
    ensures !IsLegal("Welcome") && IsLegal("{{code}}")
  {
    LetterEndsIsIllegal("Welcome");
    assert BraceWrapped("{{code}}");
  }

  /** The page's evaluation reports the title alone. */
  lemma WelcomePageReportsTitle()
    ensures Failures(Walk(WelcomePage)) == ["Welcome"]
  {
    WelcomePageLeaves();
    WelcomeTrimmed();
    WelcomeVerdicts();
    TwoTrimmedValues("Welcome", "{{code}}");
  }

  /** A failing document counts once, however many values it reports: two illegal values
      in one document add one to the counter. */
  lemma OneCountPerDocument()
    ensures Failures(Walk(Arr([Str("Hello"), Str("World")]))) == ["Hello", "World"]
    ensures FailedCount([Arr([Str("Hello"), Str("World")])]) == 1
  {
    var doc := Arr([Str("Hello"), Str("World")]);
    assert [Str("Hello"), Str("World")][..1] == [Str("Hello")];
    assert ItemLeaves([Str("Hello")]) == ItemLeaves([]) + Leaves(Str("Hello"));
    assert Walk(doc) == ["Hello", "World"];
    TrimOfTrimmed("Hello");
    TrimOfTrimmed("World");
    LetterEndsIsIllegal("Hello");
    LetterEndsIsIllegal("World");
    TwoTrimmedValues("Hello", "World");
    FailedCountStep([], doc);
    assert [] + [doc] == [doc];
  }
}

/** The batch evaluator for one document: trim every collected value and keep the
    ones the classifier rejects. */
module Evaluator {
  import opened Text
  import opened Classifier
  import opened Sequences

  /** Every collected value, trimmed, in input order. */
  function TrimAll(text: seq<string>): (r: seq<string>)
    ensures |r| == |text|
    decreases |text|
  {
    if text == [] then [] else TrimAll(text[..|text| - 1]) + [Trim(text[|text| - 1])]
  }

  /** Trimming is value by value: position `i` of the result is `text[i]` trimmed. */
  lemma {:induction false} TrimAllAt(text: seq<string>)
    ensures forall i :: 0 <= i < |text| ==> TrimAll(text)[i] == Trim(text[i])
    decreases |text|
  {
    if text != [] {
      var init := text[..|text| - 1];
      TrimAllAt(init);
      assert forall i :: 0 <= i < |init| ==> init[i] == text[i];
    }
  }

  /** Trimming works piecewise: trimming `a + b` trims `a`, then `b`. */
  lemma {:induction false} TrimAllAppend(a: seq<string>, b: seq<string>)
    ensures TrimAll(a + b) == TrimAll(a) + TrimAll(b)
    decreases |b|
  {
    if b == [] {
      assert a + b == a;
    } else {
      var b' := b[..|b| - 1];
      assert (a + b)[..|a + b| - 1] == a + b';
      TrimAllAppend(a, b');
    }
  }

  /** The classifier's rejection of one trimmed value. */
  predicate Rejects(s: string) {
    !IsLegal(s)
  }

  /** `evaluateText`'s result: the trimmed values the classifier rejects, in input order. */
  function Failures(text: seq<string>): seq<string>
  {
    Filter(TrimAll(text), Rejects)
  }

  /** `evaluateText`: walk the values in index order, pushing each rejected trimmed value. */
  method EvaluateText(text: seq<string>) returns (failedItems: seq<string>)
    ensures failedItems == Failures(text)
  {
    failedItems := [];
    var index := 0;
    while index < |text|
      invariant 0 <= index <= |text|
      invariant failedItems == Filter(TrimAll(text[..index]), Rejects)
    {
      var currItem := Trim(text[index]);
      assert text[..index + 1][..index] == text[..index];
      assert TrimAll(text[..index + 1]) == TrimAll(text[..index]) + [currItem];
      assert (TrimAll(text[..index]) + [currItem])[..index] == TrimAll(text[..index]);
      if !IsLegal(currItem) {
        failedItems := failedItems + [currItem];
      }
      index := index + 1;
    }
    assert text[..|text|] == text;
  }

  /** A document's evaluation is never longer than its input, and it is empty iff every
      trimmed value is legal. */
  lemma FailuresEmptyIffAllLegal(text: seq<string>)
    ensures |Failures(text)| <= |text|
    ensures Failures(text) == [] <==> forall i :: 0 <= i < |text| ==> IsLegal(Trim(text[i]))
  {
    FilterKeeps(TrimAll(text), Rejects);
    TrimAllAt(text);
  }

  /** Every value a document's evaluation reports is trimmed and illegal. */
  lemma FailuresAreTrimmedRejects(text: seq<string>)
    ensures forall k :: 0 <= k < |Failures(text)| ==>
              !IsLegal(Failures(text)[k]) && Trim(Failures(text)[k]) == Failures(text)[k]
  {
    var t := TrimAll(text);
    var r := Failures(text);
    TrimAllAt(text);
    FilterKeeps(t, Rejects);
    KeptIndicesCorrect(t, Rejects);
    var idx := KeptIndices(t, Rejects);
    forall k | 0 <= k < |r|
      ensures Trim(r[k]) == r[k]
    {
      assert r[k] == t[idx[k]];
      TrimIdempotent(text[idx[k]]);
    }
  }

  /** The evaluation is the ordered selection of rejected trimmed values: there are
      increasing positions, exactly those whose trimmed value is illegal, whose trimmed
      values make up the result. */
  lemma FailuresAreRejectedInOrder(text: seq<string>)
    ensures exists idx :: KeptPositions(idx, TrimAll(text), Rejects)
                          && Picks(Failures(text), TrimAll(text), idx)
  {
    FilterIsSubsequence(TrimAll(text), Rejects);
  }

  /** Evaluation works value by value: evaluating `a + b` reports `a`'s failures, then `b`'s. */
  lemma FailuresAppend(a: seq<string>, b: seq<string>)
    ensures Failures(a + b) == Failures(a) + Failures(b)
  {
    TrimAllAppend(a, b);
    FilterAppend(TrimAll(a), TrimAll(b), Rejects);
  }
}

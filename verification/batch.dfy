/** The run over a file group: each parsed document is collected and evaluated, and the
    run counts the documents that report at least one untranslated value. */
module Batch {
  import opened Document
  import opened Collector
  import opened Evaluator
  import opened Sequences

  /** A document fails when its evaluation reports at least one value. */
  predicate DocumentFails(doc: Node) {
    Failures(Walk(doc)) != []
  }

  /** Some document of the group fails. */
  predicate GroupHasFailure(docs: seq<Node>) {
    Any(docs, DocumentFails)
  }

  /** Some document of some group fails. */
  predicate AnyGroupHasFailure(groups: seq<seq<Node>>) {
    Any(groups, GroupHasFailure)
  }

  /** The number of failing documents: each counts once, however many values it reports. */
  function FailedCount(docs: seq<Node>): (count: nat)
    ensures count <= |docs|
    ensures count == 0 <==> !GroupHasFailure(docs)
  {
    var failing := Filter(docs, DocumentFails);
    FilterKeeps(docs, DocumentFails);
    assert failing == [] <==> !GroupHasFailure(docs);
    |failing|
  }

  /** The `parseString` callback for one parsed document: collect its values and
      evaluate them; the document fails iff something is reported. */
  method EvaluateDocument(doc: Node) returns (failed: seq<string>)
    ensures failed == Failures(Walk(doc))
    ensures |failed| > 0 <==> DocumentFails(doc)
  {
    var text := ProcessFile(doc);
    failed := EvaluateText(text);
  }

  /** The body of the `forEach` for the document at position `i`: evaluate it and add one
      to the counter when its evaluation is non-empty. */
  method CountDocument(docs: seq<Node>, i: nat, count: nat) returns (count': nat)
    requires i < |docs| && count == |Filter(docs[..i], DocumentFails)|
    ensures count' == |Filter(docs[..i + 1], DocumentFails)|
  {
    var failed := EvaluateDocument(docs[i]);
    FilterCountSnoc(docs, i, DocumentFails, |failed| > 0);
    count' := if |failed| > 0 then count + 1 else count;
  }

  /** The `forEach` over one group's documents: collect, evaluate, and add one to the
      counter for every document whose evaluation is non-empty. */
  method ProcessGroup(docs: seq<Node>) returns (failedFileCount: nat)
    ensures failedFileCount == FailedCount(docs)
  {
    failedFileCount := 0;
    var i := 0;
    while i < |docs|
      invariant 0 <= i <= |docs|
      invariant failedFileCount == |Filter(docs[..i], DocumentFails)|
    {
      failedFileCount := CountDocument(docs, i, failedFileCount);
      i := i + 1;
    }
    assert docs[..|docs|] == docs;
  }

  /** `process` as written: an empty group list succeeds; otherwise only the LAST group
      (`files.pop()`) is evaluated, and the outcome is 1 iff one of its documents fails. */
  method Process(groups: seq<seq<Node>>) returns (code: int)
    ensures code == 0 || code == 1
    ensures groups == [] ==> code == 0
    ensures groups != [] ==> (code == 1 <==> GroupHasFailure(groups[|groups| - 1]))
  {
    if |groups| <= 0 {
      return 0;
    }
    var failedFileCount := ProcessGroup(groups[|groups| - 1]);
    if failedFileCount > 0 {
      return 1;
    }
    return 0;
  }

  /** One group of the corrected run: its failing documents are added to the running total,
      which stays zero exactly while no group seen so far has a failing document. */
  method CountGroup(groups: seq<seq<Node>>, g: nat, total: nat) returns (total': nat)
    requires g < |groups|
    requires total == 0 <==> !AnyGroupHasFailure(groups[..g])
    ensures total' == 0 <==> !AnyGroupHasFailure(groups[..g + 1])
  {
    var count := ProcessGroup(groups[g]);
    AnyPrefixStep(groups, g, GroupHasFailure);
    total' := total + count;
  }

  /** `process` as evidently intended: every group is evaluated, and the outcome is 1 iff
      some document of some group fails (so an empty group list succeeds). */
  method ProcessAll(groups: seq<seq<Node>>) returns (code: int)
    ensures code == 0 || code == 1
    ensures code == 1 <==> AnyGroupHasFailure(groups)
  {
    var failedFileCount: nat := 0;
    var g := 0;
    while g < |groups|
      invariant 0 <= g <= |groups|
      invariant failedFileCount == 0 <==> !AnyGroupHasFailure(groups[..g])
    {
      failedFileCount := CountGroup(groups, g, failedFileCount);
      g := g + 1;
    }
    assert groups[..|groups|] == groups;
    if failedFileCount > 0 {
      return 1;
    }
    return 0;
  }

  /** A document that contributes the illegal value "x" and nothing else. */
  const FailingDocument: Node := Arr([Str("x")])

  /** Only the last group is looked at: with a failing document in the first of two groups
      and none in the last, `Process` must report success (0) while `ProcessAll` reports
      failure (1). */
  lemma LastGroupOnlyMissesFailures()
    ensures var groups := [[FailingDocument], []];
            AnyGroupHasFailure(groups) && !GroupHasFailure(groups[|groups| - 1])
  {
    var groups: seq<seq<Node>> := [[FailingDocument], []];
    FailingDocumentFails();
    assert groups[0][0] == FailingDocument;
    assert GroupHasFailure(groups[0]);
  }

  /** The document holding only "x" fails. */
  lemma FailingDocumentFails()
    ensures DocumentFails(FailingDocument)
  {
    assert Walk(FailingDocument) == ["x"] by {
      assert ItemLeaves([Str("x")]) == ItemLeaves([]) + Leaves(Str("x"));
    }
    assert TrimAll(["x"]) == ["x"] by {
      Text.TrimOfTrimmed("x");
    }
    assert Rejects("x") by {
      Classifier.LetterEndsIsIllegal("x");
    }
  }

  /** The counter goes up by at most one per document: appending a document adds one
      exactly when that document fails, whatever number of values it reports. */
  lemma FailedCountStep(docs: seq<Node>, d: Node)
    ensures FailedCount(docs + [d]) == FailedCount(docs) + (if DocumentFails(d) then 1 else 0)
  {
    FilterAppend(docs, [d], DocumentFails);
    assert Filter([d], DocumentFails) == Filter([], DocumentFails) + (if DocumentFails(d) then [d] else []);
  }

  /** The count is a plain sum: it does not depend on the order the documents are
      processed in, so the per-document callbacks may complete in any order. */
  lemma FailedCountOrderFree(a: seq<Node>, b: seq<Node>)
    requires multiset(a) == multiset(b)
    ensures FailedCount(a) == FailedCount(b)
  {
    FilterCountPermutation(a, b, DocumentFails);
  }
}

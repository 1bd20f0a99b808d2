/**
 * `format_docs` of backend/rag_chain.py: turns the passages the retriever
 * returns into the single context string of the prompt. Each passage is
 * stripped, cut at its first `## [METADATA:` marker, and unwrapped from
 * `Q:`/`A:` framing; the non-empty results are joined by blank lines in
 * retrieval order.
 */
module RagChain {
  import opened Text

  /** What the prompt gets when there is nothing usable. */
  const NoContext: string := "No relevant information found in the knowledge base."

  const MetadataMarker: string := "## [METADATA:"
  const AnswerMetadataMarker: string := "\n\n## [METADATA:"
  const AnswerLabel: string := "\nA:"
  const HeadingQuestionLabel: string := "### Q:"
  const QuestionLabel: string := "Q:"

  /** The separator of `"\n\n".join(cleaned)`. */
  const PassageSeparator: string := "\n\n"

  /**
   * Step 1 on a stripped passage: cut it at the first metadata marker. No
   * marker is left afterwards, and a passage without one is kept as it is.
   */
  function DropMetadata(text: string): (r: string)
    ensures !Contains(r, MetadataMarker)
    ensures |r| <= |text|
    ensures !Contains(text, MetadataMarker) ==> r == text
    ensures IsTrimmed(text) ==> IsTrimmed(r)
  {
    if Contains(text, MetadataMarker) then
      BeforeNotContains(text, MetadataMarker);
      StripNotContains(Before(text, MetadataMarker), MetadataMarker);
      Strip(Before(text, MetadataMarker))
    else text
  }

  predicate HasQuestionLabel(text: string) {
    StartsWith(text, HeadingQuestionLabel) || StartsWith(text, QuestionLabel)
  }

  /**
   * Step 2: unwrap `Q:`/`A:` framing, keeping only the answer when there is
   * one. Text without a question label is kept as it is; unwrapped text is
   * stripped; nothing grows.
   */
  function Unwrap(text: string): (r: string)
    ensures !HasQuestionLabel(text) ==> r == text
    ensures HasQuestionLabel(text) ==> IsTrimmed(r)
    ensures |r| <= |text|
  {
    if HasQuestionLabel(text) then
      if Contains(text, AnswerLabel) then
        var answerPart := After(text, AnswerLabel);
        var answerPart' := if Contains(answerPart, AnswerMetadataMarker)
                           then Before(answerPart, AnswerMetadataMarker) else answerPart;
        assert |answerPart'| <= |answerPart| <= |text|;
        Strip(answerPart')
      else
        var unheaded := RemoveAll(text, HeadingQuestionLabel);
        var unlabelled := RemoveFirst(unheaded, QuestionLabel);
        assert |unlabelled| <= |unheaded| <= |text|;
        Strip(unlabelled)
    else text
  }

  /**
   * One passage as the loop body of `format_docs` leaves it; "" means it is
   * skipped. What is kept is no longer than the passage.
   */
  function CleanPassage(doc: string): (r: string)
    ensures |r| <= |doc|
  {
    Unwrap(DropMetadata(Strip(doc)))
  }

  /** The `cleaned` list after the loop: the non-empty cleaned passages in input order. */
  function Cleaned(docs: seq<string>): (pieces: seq<string>)
    ensures |pieces| <= |docs|
    ensures forall k :: 0 <= k < |pieces| ==> |pieces[k]| > 0
  {
    if docs == [] then []
    else
      var last := CleanPassage(docs[|docs| - 1]);
      var front := Cleaned(docs[..|docs| - 1]);
      if last == [] then front
      else
        var pieces := front + [last];
        assert forall k :: 0 <= k < |pieces| ==> |pieces[k]| > 0 by {
          forall k | 0 <= k < |pieces|
            ensures |pieces[k]| > 0
          {
            if k < |front| {
              assert pieces[k] == front[k];
            } else {
              assert pieces[k] == last;
            }
          }
        }
        pieces
  }

  /**
   * The string `format_docs` returns: never empty, and the sentinel when
   * no passage survives cleaning.
   */
  function FormattedContext(docs: seq<string>): (r: string)
    ensures r != []
    ensures Cleaned(docs) == [] ==> r == NoContext
  {
    var pieces := Cleaned(docs);
    if pieces == [] then NoContext else Join(pieces, PassageSeparator)
  }

  lemma {:induction false} SnocRegroup(whole: seq<string>, front: seq<string>, left: seq<string>,
                                       mid: seq<string>, mid': seq<string>, tail: seq<string>)
    requires whole == front + tail && front == left + mid && mid' == mid + tail
    ensures whole == left + mid'
  {
    assert (left + mid) + tail == left + (mid + tail);
  }

  /** Cleaning distributes over concatenation: the pieces keep the order of their passages. */
  lemma {:induction false} CleanedAppend(a: seq<string>, b: seq<string>)
    ensures Cleaned(a + b) == Cleaned(a) + Cleaned(b)
    decreases |b|
  {
    if b == [] {
      assert a + b == a;
    } else {
      var b', last := b[..|b| - 1], CleanPassage(b[|b| - 1]);
      var tail := if last == [] then [] else [last];
      assert (a + b)[..|a + b| - 1] == a + b';
      assert (a + b)[|a + b| - 1] == b[|b| - 1];
      CleanedAppend(a, b');
      SnocRegroup(Cleaned(a + b), Cleaned(a + b'), Cleaned(a), Cleaned(b'), Cleaned(b), tail);
    }
  }

  /** The passages up to `i + 1` clean to those up to `i`, then passage `i`. */
  lemma {:induction false} CleanedSnoc(docs: seq<string>, i: nat)
    requires i < |docs|
    ensures Cleaned(docs[..i + 1]) ==
            Cleaned(docs[..i]) + (if CleanPassage(docs[i]) == [] then [] else [CleanPassage(docs[i])])
  {
    assert docs[..i + 1][..i] == docs[..i];
    assert docs[..i + 1][i] == docs[i];
  }

  /** A single passage contributes its cleaned text, or nothing when that is empty. */
  lemma {:induction false} CleanedSingle(doc: string)
    ensures Cleaned([doc]) == if CleanPassage(doc) == [] then [] else [CleanPassage(doc)]
  {
    assert [doc][..0] == [];
  }

  /** No passages: the fixed sentinel. */
  lemma {:induction false} NoPassagesNoContext()
    ensures FormattedContext([]) == NoContext
  {
  }

  /** Blank passages are skipped. */
  lemma {:induction false} BlankPassageSkipped(doc: string)
    requires Strip(doc) == []
    ensures CleanPassage(doc) == []
  {
  }

  /** When every passage is blank the context is the sentinel too. */
  lemma {:induction false} AllBlankNoContext(docs: seq<string>)
    requires forall i :: 0 <= i < |docs| ==> Strip(docs[i]) == []
    ensures Cleaned(docs) == []
    ensures FormattedContext(docs) == NoContext
    decreases |docs|
  {
    if docs != [] {
      var front := docs[..|docs| - 1];
      forall i | 0 <= i < |front| ensures Strip(front[i]) == [] {
        assert front[i] == docs[i];
      }
      AllBlankNoContext(front);
      BlankPassageSkipped(docs[|docs| - 1]);
    }
  }

  /** A passage without marker or question label comes out as its stripped text. */
  lemma {:induction false} PlainPassage(doc: string)
    requires !Contains(Strip(doc), MetadataMarker)
    requires !HasQuestionLabel(Strip(doc))
    ensures CleanPassage(doc) == Strip(doc)
  {
  }

  /** A passage with a marker and no question label comes out as the stripped text before the marker. */
  lemma {:induction false} MetadataPassage(doc: string)
    requires Contains(Strip(doc), MetadataMarker)
    requires !HasQuestionLabel(Strip(Before(Strip(doc), MetadataMarker)))
    ensures CleanPassage(doc) == Strip(Before(Strip(doc), MetadataMarker))
  {
  }

  /**
   * The extra cut of the answer at "\n\n## [METADATA:" never fires: the
   * text was already cut at the first "## [METADATA:", which that longer
   * marker contains.
   */
  lemma {:induction false} AnswerCutIsRedundant(text: string)
    requires !Contains(text, MetadataMarker) && Contains(text, AnswerLabel)
    ensures !Contains(After(text, AnswerLabel), AnswerMetadataMarker)
  {
    var answer := After(text, AnswerLabel);
    InfixNotContains(text, MetadataMarker, |text| - |answer|, |text|);
    assert text[|text| - |answer|..|text|] == answer;
    assert OccursAt(AnswerMetadataMarker, MetadataMarker, 2);
    NotContainsOuter(answer, AnswerMetadataMarker, MetadataMarker);
  }

  /** A question-labelled passage with an answer comes out as the stripped text after the first "\nA:". */
  lemma {:induction false} QuestionAnswerPassage(doc: string)
    requires HasQuestionLabel(DropMetadata(Strip(doc)))
    requires Contains(DropMetadata(Strip(doc)), AnswerLabel)
    ensures CleanPassage(doc) == Strip(After(DropMetadata(Strip(doc)), AnswerLabel))
  {
    var text := DropMetadata(Strip(doc));
    AnswerCutIsRedundant(text);
  }

  /**
   * A question-labelled passage without an answer loses every "### Q:", then
   * its first remaining "Q:", and is stripped.
   */
  lemma {:induction false} QuestionOnlyPassage(doc: string)
    requires HasQuestionLabel(DropMetadata(Strip(doc)))
    requires !Contains(DropMetadata(Strip(doc)), AnswerLabel)
    ensures CleanPassage(doc) ==
            Strip(RemoveFirst(RemoveAll(DropMetadata(Strip(doc)), HeadingQuestionLabel), QuestionLabel))
  {
  }

  /** Every piece is a stripped string: it neither starts nor ends with whitespace. */
  lemma {:induction false} CleanPassageTrimmed(doc: string)
    ensures IsTrimmed(CleanPassage(doc))
  {
  }

  /**
   * An already clean passage is formatted unchanged up to stripping: a
   * non-blank passage without marker or question label becomes the whole context.
   */
  lemma {:induction false} CleanPassageFormatsToItself(doc: string)
    requires Strip(doc) != []
    requires !Contains(Strip(doc), MetadataMarker)
    requires !HasQuestionLabel(Strip(doc))
    ensures FormattedContext([doc]) == Strip(doc)
  {
    PlainPassage(doc);
    CleanedSingle(doc);
  }

  /**
   * The loop of `format_docs`: every passage stripped, skipped with
   * `continue` when blank, cut and unwrapped, and kept when something is left.
   */
  method CleanDocs(docs: seq<string>) returns (cleaned: seq<string>)
    ensures cleaned == Cleaned(docs)
  {
    cleaned := [];
    for i := 0 to |docs|
      invariant cleaned == Cleaned(docs[..i])
    {
      CleanedSnoc(docs, i);
      var text := Strip(docs[i]);
      if text == [] {
        BlankPassageSkipped(docs[i]);
        continue;
      }
      // The metadata cut, then the `Q:`/`A:` unwrapping.
      text := Unwrap(DropMetadata(text));
      if text != [] {
        cleaned := cleaned + [text];
      }
    }
    assert docs[..|docs|] == docs;
  }

  /**
   * `format_docs`: the sentinel for no passages, the loop, the sentinel again
   * when every passage was dropped, and the join otherwise.
   */
  method FormatDocs(docs: seq<string>) returns (context: string)
    ensures context == FormattedContext(docs)
    ensures context != []
  {
    if docs == [] {
      return NoContext;
    }
    var cleaned := CleanDocs(docs);
    if cleaned == [] {
      return NoContext;
    }
    return Join(cleaned, PassageSeparator);
  }
}

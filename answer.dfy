/** `get_answer`: ask the question-answering service about each selected chunk
    in turn and keep the first answer with the highest positive score. The
    service is external: it enters as a function from (context, question) to
    its reply. */
module Answering {
  import opened Prelude

  /** A reply of the question-answering service: its status code and, for a 200,
      the `score` and `answer` fields of its JSON body, either of which may be missing. */
  datatype QaResponse = QaResponse(status: int, score: Option<real>, answer: Option<string>)

  const NoAnswerDefault := "I couldn't find an answer."
  const NoInformation := "No relevant information found."

  predicate Succeeded(r: QaResponse) {
    r.status == 200
  }

  /** `answer_data.get("score", 0)`. */
  function ScoreOf(r: QaResponse): real {
    r.score.GetOr(0.0)
  }

  /** `answer_data.get("answer", "I couldn't find an answer.")`. */
  function AnswerOf(r: QaResponse): string {
    r.answer.GetOr(NoAnswerDefault)
  }

  /** The loop's `best_score`, and which reply last set `best_answer`. */
  datatype Best = Best(score: real, index: Option<nat>)

  /** The loop state after the given replies, in the order they were received. */
  function Fold(rs: seq<QaResponse>): (b: Best)
    ensures b.score >= 0.0
    ensures b.index.None? ==> b.score == 0.0
    ensures b.index.Some? ==> b.index.value < |rs| && b.score == ScoreOf(rs[b.index.value])
  {
    if rs == [] then Best(0.0, None)
    else
      var b := Fold(rs[..|rs| - 1]);
      var last := rs[|rs| - 1];
      if Succeeded(last) && ScoreOf(last) > b.score then Best(ScoreOf(last), Some(|rs| - 1)) else b
  }

  /** No successful reply has a positive score. */
  predicate NonePositive(rs: seq<QaResponse>) {
    forall j :: 0 <= j < |rs| && Succeeded(rs[j]) ==> ScoreOf(rs[j]) <= 0.0
  }

  /** Reply k is the first successful reply of maximal score, and that score is positive. */
  predicate IsWinner(rs: seq<QaResponse>, k: nat) {
    k < |rs| && Succeeded(rs[k]) && ScoreOf(rs[k]) > 0.0 &&
    (forall j :: 0 <= j < |rs| && Succeeded(rs[j]) ==> ScoreOf(rs[j]) <= ScoreOf(rs[k])) &&
    (forall j :: 0 <= j < k && Succeeded(rs[j]) ==> ScoreOf(rs[j]) < ScoreOf(rs[k]))
  }

  /** The loop keeps the first reply reaching the maximal positive score among
      the successful ones, and keeps none when no successful score is positive. */
  lemma {:induction false} FoldFindsWinner(rs: seq<QaResponse>)
    ensures Fold(rs).index.None? <==> NonePositive(rs)
    ensures Fold(rs).index.Some? ==> IsWinner(rs, Fold(rs).index.value)
  {
    if rs != [] {
      var init, last := rs[..|rs| - 1], rs[|rs| - 1];
      FoldFindsWinner(init);
      assert forall j :: 0 <= j < |init| ==> init[j] == rs[j];
    }
  }

  /** There is at most one winner. */
  lemma WinnerUnique(rs: seq<QaResponse>, k: nat, m: nat)
    requires IsWinner(rs, k) && IsWinner(rs, m)
    ensures k == m
  {
  }

  /** The loop keeps reply k exactly when k is the winner. */
  lemma FoldIndexIsWinner(rs: seq<QaResponse>, k: nat)
    ensures Fold(rs).index == Some(k) <==> IsWinner(rs, k)
  {
    FoldFindsWinner(rs);
    if IsWinner(rs, k) {
      assert !NonePositive(rs);
      WinnerUnique(rs, k, Fold(rs).index.value);
    }
  }

  /** What the loop keeps, stated through the winner alone. */
  lemma FoldByWinner(rs: seq<QaResponse>)
    ensures NonePositive(rs) ==> Fold(rs).index.None?
    ensures forall k: nat :: IsWinner(rs, k) ==> Fold(rs).index == Some(k)
  {
    FoldFindsWinner(rs);
    forall k: nat | IsWinner(rs, k) ensures Fold(rs).index == Some(k) {
      FoldIndexIsWinner(rs, k);
    }
  }

  /** `best_answer or "No relevant information found."`: the winner's answer,
      unless there is no winner or its answer is the empty string. */
  function SelectAnswer(rs: seq<QaResponse>): (a: string)
    ensures NonePositive(rs) ==> a == NoInformation
    ensures forall k: nat :: IsWinner(rs, k) ==> a == if AnswerOf(rs[k]) == "" then NoInformation else AnswerOf(rs[k])
    ensures a != ""
  {
    FoldByWinner(rs);
    var best := Fold(rs).index;
    if best.None? || AnswerOf(rs[best.value]) == "" then NoInformation else AnswerOf(rs[best.value])
  }

  /** The service's replies, one per chunk, in chunk order. */
  function Responses(chunks: seq<string>, question: string, qa: (string, string) -> QaResponse): (rs: seq<QaResponse>)
    ensures |rs| == |chunks|
  {
    seq(|chunks|, k requires 0 <= k < |chunks| => qa(chunks[k], question))
  }

  /** `get_answer(text_chunks, question)`. */
  method GetAnswer(chunks: seq<string>, question: string, qa: (string, string) -> QaResponse) returns (answer: string)
    ensures answer == SelectAnswer(Responses(chunks, question, qa))
  {
    ghost var rs := Responses(chunks, question, qa);
    var bestAnswer: Option<string> := None;
    var bestScore: real := 0.0;
    for i := 0 to |chunks|
      invariant bestScore == Fold(rs[..i]).score
      invariant bestAnswer == match Fold(rs[..i]).index
                              case None => None
                              case Some(k) => Some(AnswerOf(rs[k]))
    {
      var response := qa(chunks[i], question);
      assert rs[..i + 1][..i] == rs[..i];
      if response.status == 200 {
        var score := response.score.GetOr(0.0);
        if score > bestScore {
          bestScore := score;
          bestAnswer := Some(response.answer.GetOr(NoAnswerDefault));
        }
      }
    }
    assert rs[..|chunks|] == rs;
    answer := if bestAnswer.Some? && bestAnswer.value != "" then bestAnswer.value else NoInformation;
  }
}

/** The record shapes of the survey database (surveys, sections, questions,
    responses, answers) as immutable values. Identifiers are naturals; a
    response's identifier is its position in the response table. */
module Schema {

  datatype Option<T> = None | Some(value: T) {
    function GetOr(default: T): T {
      match this
      case Some(v) => v
      case None => default
    }
  }

  /** One answer of one response to one question; `choice` is free text
      ('Yes', 'No' or 'Abstain' in practice, never validated). */
  datatype Answer = Answer(responseId: nat, questionId: nat, choice: string, elaboration: Option<string>)

  datatype Question = Question(id: nat, number: int, text: string)

  datatype Section = Section(id: nat, number: int, title: string, description: string, questions: seq<Question>)

  datatype Survey = Survey(id: nat, title: string, description: string, isActive: bool, sections: seq<Section>)

  /** One respondent's (possibly partial) response to one survey. */
  datatype Response = Response(surveyId: nat, email: Option<string>, resumeToken: Option<string>, isComplete: bool)

  /** The answers of the whole answer table that belong to one question
      (the `question.answers` relationship): every row with that question id,
      as often as it occurs in the table. */
  function AnswersFor(table: seq<Answer>, questionId: nat): (r: seq<Answer>)
    ensures |r| <= |table|
    ensures forall a :: a in r <==> a in table && a.questionId == questionId
    ensures forall a :: multiset(r)[a] == if a.questionId == questionId then multiset(table)[a] else 0
  {
    if table == [] then []
    else
      assert table == [table[0]] + table[1..];
      (if table[0].questionId == questionId then [table[0]] else []) + AnswersFor(table[1..], questionId)
  }
}

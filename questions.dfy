/**
 * A quiz question as the game reads it (app/Models/Question.php): its answer,
 * its JSON option list and the predicates on its type and options.
 */
module Questions {
  import opened Basics

  /** One element of the decoded `options` JSON: an object whose `text` key may be absent or null. */
  datatype OptionItem = OptionItem(text: Option<string>)

  /** The `options` attribute after the `array` cast: a list, or anything else (null, a scalar). */
  datatype Options = NotArray | Items(items: seq<OptionItem>)

  const MultipleChoiceType := "multiple_choice"
  const FillBlankType := "fill_blank"

  datatype Question = Question(
    categoryId: CategoryId,
    questionText: string,
    questionType: string,
    correctAnswer: string,
    options: Options,
    explanation: Option<string>,
    difficultyLevel: int,
    isActive: bool)

  /** `$option['text'] ?? ''`. */
  function TextOf(item: OptionItem): string {
    item.text.GetOr("")
  }

  function TextsOf(items: seq<OptionItem>): (texts: seq<string>)
    ensures |texts| == |items|
    ensures forall i :: 0 <= i < |items| ==> texts[i] == TextOf(items[i])
  {
    if items == [] then [] else [TextOf(items[0])] + TextsOf(items[1..])
  }

  /** `getOptionTexts`: nothing for a non-array, otherwise each option's text in order. */
  function GetOptionTexts(q: Question): (texts: seq<string>)
    ensures q.options.NotArray? ==> texts == []
    ensures q.options.Items? ==> |texts| == |q.options.items|
    ensures q.options.Items? ==> forall i :: 0 <= i < |texts| ==> texts[i] == TextOf(q.options.items[i])
  {
    match q.options
    case NotArray => []
    case Items(items) => TextsOf(items)
  }

  predicate IsMultipleChoice(q: Question) {
    q.questionType == MultipleChoiceType
  }

  /** `isFillInTheBlank`; a question is never of both types. */
  predicate IsFillInTheBlank(q: Question): (b: bool)
    ensures b ==> !IsMultipleChoice(q)
  {
    q.questionType == FillBlankType
  }

  /**
   * `isCorrectAnswerValid`: every non-multiple-choice question passes; a
   * multiple-choice one passes exactly when some option's text is its answer.
   */
  function IsCorrectAnswerValid(q: Question): (valid: bool)
    ensures !IsMultipleChoice(q) ==> valid
    ensures IsMultipleChoice(q) && q.options.NotArray? ==> !valid
    ensures IsMultipleChoice(q) && q.options.Items? ==>
      (valid <==> exists i :: 0 <= i < |q.options.items| && TextOf(q.options.items[i]) == q.correctAnswer)
  {
    if !IsMultipleChoice(q) then true
    else q.correctAnswer in GetOptionTexts(q)
  }

  /** `getOptionsCount`: 0 for a non-array, otherwise as many as there are option texts. */
  function GetOptionsCount(q: Question): (n: nat)
    ensures q.options.NotArray? ==> n == 0
    ensures n == |GetOptionTexts(q)|
  {
    match q.options
    case NotArray => 0
    case Items(items) => |items|
  }
}

/**
  The flashcard quiz of the gamified port page. Each `.icone` element carries a question,
  its options, the correct option and an explanation in its `data-*` attributes. Clicking
  an icon opens its card and builds one button per option; choosing the correct option adds
  10 points and marks the icon answered (class `respondido`).

  The page's module-level variables are the fields of `Quiz`; icons are referred to by
  their position in document order.
 */
module Flashcards {
  import opened Results

  /** Points for one correct answer. */
  const PointsPerAnswer := 10

  /** The `data-pergunta`, `data-opcoes` (already parsed), `data-correta` and
      `data-explicacao` attributes of one icon. */
  datatype IconData = IconData(question: string, options: seq<string>, correct: string, explanation: string)

  class Quiz {
    const icons: seq<IconData>
    /** `score` */
    var score: int
    /** `iconeAtual`: None is `null` */
    var current: Option<nat>
    /** `respostaCorreta` */
    var correctAnswer: string
    /** `explicacaoAtual` */
    var explanation: string
    /** the text of `#pergunta` */
    var question: string
    /** the labels of the option buttons in `#opcoes-container`, in order */
    var buttons: seq<string>
    /** the icons whose class list holds `respondido` */
    var answered: set<nat>

    /** The score is a non-negative multiple of 10; the current and answered icons exist. */
    ghost predicate Valid()
      reads this
    {
      && 0 <= score
      && score % PointsPerAnswer == 0
      && (current.Some? ==> current.value < |icons|)
      && (forall i :: i in answered ==> i < |icons|)
    }

    /** The page as loaded: no icon chosen, no answers, score 0. */
    constructor (icons: seq<IconData>)
      ensures Valid()
      ensures this.icons == icons
      ensures score == 0 && current == None && correctAnswer == "" && explanation == ""
      ensures buttons == [] && answered == {}
    {
      this.icons := icons;
      score := 0;
      current := None;
      correctAnswer := "";
      explanation := "";
      question := "";
      buttons := [];
      answered := {};
    }

    /** The click handler of icon `i`: it becomes current, its data fills the card, and the
        option buttons are rebuilt from its options, one per option, in order. */
    method ClickIcon(i: nat)
      requires Valid() && i < |icons|
      modifies this
      ensures Valid()
      ensures current == Some(i)
      ensures correctAnswer == icons[i].correct && explanation == icons[i].explanation
      ensures question == icons[i].question
      ensures buttons == icons[i].options
      ensures score == old(score) && answered == old(answered)
    {
      current := Some(i);
      var data := icons[i];
      correctAnswer := data.correct;
      explanation := data.explanation;
      question := data.question;
      buttons := [];
      var k := 0;
      while k < |data.options|
        modifies this`buttons
        invariant 0 <= k <= |data.options|
        invariant buttons == data.options[..k]
      {
        buttons := buttons + [data.options[k]];
        k := k + 1;
      }
    }

    /** `validar(selecionada, botao)`. A right answer adds 10 and marks the current icon
        answered if it is not yet; a wrong one changes neither. (`iconeAtual` is always set
        once a button exists; were it null, the score would still rise and the marking would
        throw, which leaves `answered` as it was.) */
    method Validate(selected: string)
      requires Valid()
      modifies this`score, this`answered
      ensures Valid()
      ensures selected == correctAnswer ==> score == old(score) + PointsPerAnswer
      ensures selected == correctAnswer && current.Some? ==> answered == old(answered) + {current.value}
      ensures selected == correctAnswer && current.None? ==> answered == old(answered)
      ensures selected != correctAnswer ==> score == old(score) && answered == old(answered)
      ensures score >= old(score)
    {
      if selected == correctAnswer {
        score := score + PointsPerAnswer;
        if current.Some? && current.value !in answered {
          answered := answered + {current.value};
        }
      }
    }

    /** The `onclick` of the k-th option button: it validates that button's own option. */
    method ChooseOption(k: nat)
      requires Valid() && k < |buttons|
      modifies this`score, this`answered
      ensures Valid()
      ensures buttons[k] == correctAnswer ==> score == old(score) + PointsPerAnswer
      ensures buttons[k] == correctAnswer && current.Some? ==> answered == old(answered) + {current.value}
      ensures buttons[k] == correctAnswer && current.None? ==> answered == old(answered)
      ensures buttons[k] != correctAnswer ==> score == old(score) && answered == old(answered)
      ensures current.Some? && current.value in old(answered) ==> answered == old(answered)
      ensures score >= old(score)
    {
      Validate(buttons[k]);
    }
  }

  /** Answering the same icon correctly twice: the score rises by 10 both times, and the
      icon is marked once. */
  method AnswerTwice(quiz: Quiz, i: nat)
    requires quiz.Valid() && i < |quiz.icons|
    modifies quiz
    ensures quiz.score == old(quiz.score) + 2 * PointsPerAnswer
    ensures quiz.answered == old(quiz.answered) + {i}
  {
    quiz.ClickIcon(i);
    quiz.Validate(quiz.icons[i].correct);
    var once := quiz.answered;
    quiz.Validate(quiz.icons[i].correct);
    assert quiz.answered == once;
  }
}

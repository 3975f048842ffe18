/**
 * Building the answer list of a new question (`getCorrectOrWrong` and the
 * loop of `newQuestion` in index.py). The form sends three parallel lists
 * (answer texts, background colours, text colours) and marks an answer as
 * correct by the presence of a form key "correct<i>".
 */
module Questions {
  import opened Strings

  /** One entry of a question's `answers` list. */
  datatype Answer = Answer(text: string, bgColor: string, textColor: string, correct: bool)

  /** What the loop produces: the list, or the `IndexError` Python raises at `index`. */
  datatype Assembly = Assembled(answers: seq<Answer>) | IndexOutOfRange(index: nat)

  const CorrectPrefix: string := "correct"

  /** `k` spells "correct" followed by the numeral of `i` as `str` writes it. */
  predicate IsCorrectKeyFor(k: string, i: nat)
  {
    |k| > |CorrectPrefix| && k[..|CorrectPrefix|] == CorrectPrefix &&
    Canonical(k[|CorrectPrefix|..]) && ParseDecimal(k[|CorrectPrefix|..]) == i
  }

  /**
   * The form key `f"correct{i}"`: the prefix "correct" followed by the
   * canonical numeral of `i`.
   */
  function CorrectKey(i: nat): (k: string)
    ensures IsCorrectKeyFor(k, i)
  {
    var k := CorrectPrefix + Decimal(i);
    assert k[|CorrectPrefix|..] == Decimal(i);
    ParseDecimalOfDecimal(i);
    k
  }

  /** Answers with different positions are flagged by different keys. */
  lemma CorrectKeyInjective(i: nat, j: nat)
    ensures CorrectKey(i) == CorrectKey(j) ==> i == j
  {
  }

  /**
   * `getCorrectOrWrong`: answer `i` is correct exactly when some form key
   * reads as "correct" followed by the numeral of `i`. "correct07" does not
   * mark answer 7.
   */
  function GetCorrectOrWrong(i: nat, keys: set<string>): (correct: bool)
    ensures correct <==> exists k :: k in keys && IsCorrectKeyFor(k, i)
  {
    var key := CorrectKey(i);
    assert key[|CorrectPrefix|..] == Decimal(i);
    forall k | k in keys && IsCorrectKeyFor(k, i)
      ensures k == key
    {
      DecimalOfParseDecimal(k[|CorrectPrefix|..]);
      assert k == k[..|CorrectPrefix|] + k[|CorrectPrefix|..];
    }
    key in keys
  }

  /**
   * Each answer's flag depends on its own key only: adding the key of answer
   * `j` sets the flag of `j` and leaves every other answer's flag as it was.
   */
  lemma CorrectFlagsIndependent(i: nat, j: nat, keys: set<string>)
    ensures GetCorrectOrWrong(j, keys + {CorrectKey(j)})
    ensures i != j ==> GetCorrectOrWrong(i, keys + {CorrectKey(j)}) == GetCorrectOrWrong(i, keys)
  {
  }

  /**
   * The loop of `newQuestion`: for each index of `answers`, one entry made of
   * the text, the two colours at the same index, and the correctness flag.
   * A colour list shorter than `answers` makes Python raise `IndexError` at
   * the first index it lacks, before anything is stored.
   */
  method AssembleAnswers(answers: seq<string>, bgColors: seq<string>, txtColors: seq<string>, keys: set<string>)
    returns (r: Assembly)
    ensures r.IndexOutOfRange? <==> |bgColors| < |answers| || |txtColors| < |answers|
    ensures r.IndexOutOfRange? ==> r.index == if |bgColors| < |txtColors| then |bgColors| else |txtColors|
    ensures r.Assembled? ==> |r.answers| == |answers|
    ensures r.Assembled? ==> forall i :: 0 <= i < |r.answers| ==>
      r.answers[i] == Answer(answers[i], bgColors[i], txtColors[i], GetCorrectOrWrong(i, keys))
  {
    var answerList: seq<Answer> := [];
    for i := 0 to |answers|
      invariant i <= |bgColors| && i <= |txtColors|
      invariant |answerList| == i
      invariant forall k :: 0 <= k < i ==>
        answerList[k] == Answer(answers[k], bgColors[k], txtColors[k], GetCorrectOrWrong(k, keys))
    {
      if i >= |bgColors| || i >= |txtColors| {
        return IndexOutOfRange(i);
      }
      answerList := answerList + [Answer(answers[i], bgColors[i], txtColors[i], GetCorrectOrWrong(i, keys))];
    }
    return Assembled(answerList);
  }
}

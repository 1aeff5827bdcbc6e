/** The orthographic error classifier: given a wrong answer and the correct
    word (both already lower-cased), names the kind of spelling mistake. The
    tests are tried in a fixed order and the first that holds wins.
 */
module Classifier {
  import opened Text
  import Sorting

  datatype ErrorType =
    | ConfusionBV
    | ConfusionCSZ
    | AccentError
    | LetterOmission
    | LetterAddition
    | LetterInversion
    | OtherError

  /** The `errorType` code the game reports. */
  function Code(e: ErrorType): string {
    match e
    case ConfusionBV => "confusion_b_v"
    case ConfusionCSZ => "confusion_c_s_z"
    case AccentError => "accent_error"
    case LetterOmission => "letter_omission"
    case LetterAddition => "letter_addition"
    case LetterInversion => "letter_inversion"
    case OtherError => "other_error"
  }

  /** The rule sentence that goes with each kind of mistake. */
  function Feedback(e: ErrorType): string {
    match e
    case ConfusionBV => "Recuerda: La B se usa antes de consonante (ej: blanco) y la V después de N (ej: enviar)."
    case ConfusionCSZ => "Atención a los sonidos: C (antes de a,o,u), S (sonido suave), Z (antes de a,o,u)."
    case AccentError => "Recuerda las reglas de acentuación. Todas las palabras tienen sílaba tónica."
    case LetterOmission => "Te falta una letra. Lee despacio y pronuncia cada sílaba."
    case LetterAddition => "Has agregado una letra de más. Revisa letra por letra."
    case LetterInversion => "Has cambiado el orden de algunas letras. Ve despacio."
    case OtherError => "No coincide con la palabra correcta. Inténtalo de nuevo."
  }

  // ---------------------------------------------------------------- the tests

  /** Turning every `b` of the answer into `v`, or every `v` into `b`, gives
      the correct word. */
  predicate HasBVError(answer: string, correct: string) {
    Replace(answer, 'b', 'v') == correct || Replace(answer, 'v', 'b') == correct
  }

  /** A B/V confusion changes no length and touches only `b` and `v`: the two
      words agree everywhere except at positions where both hold one of them. */
  lemma BVErrorOnlySwapsBV(answer: string, correct: string)
    requires HasBVError(answer, correct)
    ensures |answer| == |correct|
    ensures forall i :: 0 <= i < |answer| ==>
      answer[i] == correct[i] || (answer[i] in "bv" && correct[i] in "bv")
  {
  }

  /** The B/V test holds exactly when the two words have the same length and
      the correct word is the answer with every `b` read as `v`, or with
      every `v` read as `b`. */
  lemma BVErrorCharacterization(answer: string, correct: string)
    ensures HasBVError(answer, correct) <==>
      |answer| == |correct|
      && ((forall i :: 0 <= i < |answer| ==> correct[i] == (if answer[i] == 'b' then 'v' else answer[i]))
          || (forall i :: 0 <= i < |answer| ==> correct[i] == (if answer[i] == 'v' then 'b' else answer[i])))
  {
    if |answer| == |correct| {
      if forall i :: 0 <= i < |answer| ==> correct[i] == (if answer[i] == 'b' then 'v' else answer[i]) {
        assert Replace(answer, 'b', 'v') == correct;
      }
      if forall i :: 0 <= i < |answer| ==> correct[i] == (if answer[i] == 'v' then 'b' else answer[i]) {
        assert Replace(answer, 'v', 'b') == correct;
      }
    }
  }

  /** The answer with `c`, `s` and `z` all written as the placeholder `*`. */
  function MergeCSZ(s: string): (r: string)
    ensures |r| == |s|
    ensures forall i :: 0 <= i < |s| ==> r[i] == (if s[i] in "csz" then '*' else s[i])
  {
    if s == [] then [] else [if s[0] in "csz" then '*' else s[0]] + MergeCSZ(s[1..])
  }

  predicate HasCSZError(answer: string, correct: string) {
    MergeCSZ(answer) == MergeCSZ(correct)
  }

  /** Letters the C/S/Z test cannot tell apart (the placeholder included). */
  predicate IsSibilant(c: char) {
    c in "csz*"
  }

  /** The C/S/Z test holds exactly when the two words have the same length and
      agree at every position that does not hold a `c`, `s`, `z` or `*` in
      both. In particular the test is symmetric. */
  lemma CSZErrorCharacterization(answer: string, correct: string)
    ensures HasCSZError(answer, correct) <==>
      |answer| == |correct|
      && forall i :: 0 <= i < |answer| ==>
           answer[i] == correct[i] || (IsSibilant(answer[i]) && IsSibilant(correct[i]))
    ensures HasCSZError(answer, correct) <==> HasCSZError(correct, answer)
  {
    var a, c := MergeCSZ(answer), MergeCSZ(correct);
    if |answer| == |correct| && forall i :: 0 <= i < |answer| ==>
         answer[i] == correct[i] || (IsSibilant(answer[i]) && IsSibilant(correct[i])) {
      assert forall i :: 0 <= i < |a| ==> a[i] == c[i];
    }
    if HasCSZError(answer, correct) {
      forall i | 0 <= i < |answer|
        ensures answer[i] == correct[i] || (IsSibilant(answer[i]) && IsSibilant(correct[i])) {
        assert a[i] == c[i];
      }
    }
  }

  /** The two words agree once accents are stripped. */
  predicate HasAccentError(answer: string, correct: string) {
    StripAccents(answer) == StripAccents(correct)
  }

  /** Between words with nothing to strip, the accent test is plain
      equality; so a wrong answer without accents, against a correct word
      without accents, is never an accent error. */
  lemma AccentErrorOnPlainWords(answer: string, correct: string)
    requires AllPlain(answer) && AllPlain(correct)
    ensures HasAccentError(answer, correct) <==> answer == correct
  {
    StripAccentsKeepsPlain(answer);
    StripAccentsKeepsPlain(correct);
  }

  function CodePoint(c: char): int {
    c as int
  }

  /** `s.split('').sort().join('')`. */
  function SortLetters(s: string): string {
    Sorting.SortBy(s, CodePoint)
  }

  /** Same length and the same letters once sorted. */
  predicate HasLetterInversion(answer: string, correct: string) {
    |answer| == |correct| && SortLetters(answer) == SortLetters(correct)
  }

  /** The inversion test holds exactly for anagrams: the two words use the
      same letters, each the same number of times. */
  lemma LetterInversionIsAnagram(answer: string, correct: string)
    ensures HasLetterInversion(answer, correct) <==> multiset(answer) == multiset(correct)
  {
    var a, c := SortLetters(answer), SortLetters(correct);
    Sorting.SortByCorrect(answer, CodePoint);
    Sorting.SortByCorrect(correct, CodePoint);
    if multiset(answer) == multiset(correct) {
      assert |answer| == |multiset(answer)| == |multiset(correct)| == |correct|;
      Sorting.SortedUnique(a, c, CodePoint);
    }
  }

  // ---------------------------------------------------------------- the classifier

  /** `analyzeOrthographicError`: the first test that holds, in the order
      B/V, C/S/Z, accents, shorter, longer, anagram, and otherwise "other".
      The sentence reported with it is `Feedback` of the result. */
  function Classify(answer: string, correct: string): (r: ErrorType)
    ensures Applies(r, answer, correct)
    ensures forall e :: Rank(e) < Rank(r) ==> !Applies(e, answer, correct)
  {
    if HasBVError(answer, correct) then ConfusionBV
    else if HasCSZError(answer, correct) then ConfusionCSZ
    else if HasAccentError(answer, correct) then AccentError
    else if |answer| < |correct| then LetterOmission
    else if |answer| > |correct| then LetterAddition
    else if HasLetterInversion(answer, correct) then LetterInversion
    else OtherError
  }

  /** Position of each test in the priority order. */
  function Rank(e: ErrorType): nat {
    match e
    case ConfusionBV => 0
    case ConfusionCSZ => 1
    case AccentError => 2
    case LetterOmission => 3
    case LetterAddition => 4
    case LetterInversion => 5
    case OtherError => 6
  }

  /** The test behind each category, taken on its own. */
  predicate Applies(e: ErrorType, answer: string, correct: string) {
    match e
    case ConfusionBV => HasBVError(answer, correct)
    case ConfusionCSZ => HasCSZError(answer, correct)
    case AccentError => HasAccentError(answer, correct)
    case LetterOmission => |answer| < |correct|
    case LetterAddition => |answer| > |correct|
    case LetterInversion => HasLetterInversion(answer, correct)
    case OtherError => true
  }

  /** Distinct categories have distinct ranks. */
  lemma RankInjective(e: ErrorType, e': ErrorType)
    requires Rank(e) == Rank(e')
    ensures e == e'
  {
  }

  /** First match wins, and it is the only category that does: a category is
      the reported one exactly when its test holds and the test of every
      category ranked before it fails. */
  lemma ClassifyIsFirstMatch(answer: string, correct: string, e: ErrorType)
    ensures e == Classify(answer, correct) <==>
      Applies(e, answer, correct) && forall e' :: Rank(e') < Rank(e) ==> !Applies(e', answer, correct)
  {
    var r := Classify(answer, correct);
    if Applies(e, answer, correct) && forall e' :: Rank(e') < Rank(e) ==> !Applies(e', answer, correct) {
      RankInjective(e, r);
    }
  }

  /** Neither substitution test can hold between words of different lengths,
      so such an answer is an accent error, an omission or an addition. */
  lemma LengthMismatchClassification(answer: string, correct: string)
    requires |answer| != |correct|
    ensures Classify(answer, correct) in {AccentError, LetterOmission, LetterAddition}
    ensures |answer| < |correct| ==> Classify(answer, correct) != LetterAddition
    ensures |answer| > |correct| ==> Classify(answer, correct) != LetterOmission
  {
  }

  /** The B/V test is tried first, so whenever it holds it decides. */
  lemma BVConfusionWins(answer: string, correct: string)
    requires HasBVError(answer, correct)
    ensures Classify(answer, correct) == ConfusionBV
  {
  }

  // Example classifications.

  lemma BVExample()
    ensures Classify("enbiar", "enviar") == ConfusionBV
  {
    assert HasBVError("enbiar", "enviar") by {
      assert Replace("enbiar", 'b', 'v') == "enviar";
    }
    BVConfusionWins("enbiar", "enviar");
  }

  // The tests on `camion` against `camión`: only the accent test holds
  // among the first three.

  lemma CamionNotBV()
    ensures !HasBVError("camion", "camión")
  {
    assert Replace("camion", 'b', 'v') != "camión" by {
      assert Replace("camion", 'b', 'v')[4] == 'o';
    }
    assert Replace("camion", 'v', 'b') != "camión" by {
      assert Replace("camion", 'v', 'b')[4] == 'o';
    }
  }

  lemma CamionNotCSZ()
    ensures !HasCSZError("camion", "camión")
  {
    assert MergeCSZ("camion")[4] == 'o';
    assert MergeCSZ("camión")[4] == 'ó';
  }

  lemma CamionAccent()
    ensures HasAccentError("camion", "camión")
  {
    assert StripAccents("camión") == "camion";
    StripAccentsKeepsPlain("camion");
  }

  lemma AccentExample()
    ensures Classify("camion", "camión") == AccentError
  {
    CamionNotBV();
    CamionNotCSZ();
    CamionAccent();
  }

  /** Dropping one letter of a word with nothing to strip is an omission,
      and adding one is an addition: the length tests come before the
      anagram test and the substitution tests need equal lengths. */
  lemma DroppedLetterIsOmission(correct: string, i: nat)
    requires AllPlain(correct) && i < |correct|
    ensures var answer := correct[..i] + correct[i + 1..];
      && Classify(answer, correct) == LetterOmission
      && Classify(correct, answer) == LetterAddition
  {
    var answer := correct[..i] + correct[i + 1..];
    assert AllPlain(answer) by {
      forall k | 0 <= k < |answer| ensures IsPlain(answer[k]) {
        assert answer[k] == correct[if k < i then k else k + 1];
      }
    }
    StripAccentsKeepsPlain(answer);
    StripAccentsKeepsPlain(correct);
    assert |Replace(answer, 'b', 'v')| == |Replace(answer, 'v', 'b')| == |answer| < |correct|;
    assert |Replace(correct, 'b', 'v')| == |Replace(correct, 'v', 'b')| == |correct|;
    assert |MergeCSZ(answer)| < |MergeCSZ(correct)|;
  }

  lemma GatosPlain()
    ensures AllPlain("gatos")
  {
    forall i | 0 <= i < 5 ensures IsPlain("gatos"[i]) {
      assert "gatos"[i] as int < 0xC0;
    }
  }

  lemma GatoDropsLast()
    ensures "gatos"[..4] + "gatos"[5..] == "gato"
  {
  }

  /** `gato` against `gatos`: the answer is one letter short, so it is an
      omission. */
  lemma OmissionExample()
    ensures Classify("gato", "gatos") == LetterOmission
  {
    GatosPlain();
    GatoDropsLast();
    DroppedLetterIsOmission("gatos", 4);
  }

  // The tests on `aot` against `ato`: only the inversion test holds.

  lemma AotNotBV()
    ensures !HasBVError("aot", "ato")
  {
    assert Replace("aot", 'b', 'v')[1] == 'o';
    assert Replace("aot", 'v', 'b')[1] == 'o';
  }

  lemma AotNotCSZ()
    ensures !HasCSZError("aot", "ato")
  {
    assert MergeCSZ("aot")[1] == 'o';
    assert MergeCSZ("ato")[1] == 't';
  }

  lemma AotNotAccent()
    ensures !HasAccentError("aot", "ato")
  {
    StripAccentsKeepsPlain("aot");
    StripAccentsKeepsPlain("ato");
    assert "aot"[1] != "ato"[1];
  }

  lemma AotInversion()
    ensures HasLetterInversion("aot", "ato")
  {
    assert multiset("aot") == multiset("ato");
    LetterInversionIsAnagram("aot", "ato");
  }

  lemma InversionExample()
    ensures Classify("aot", "ato") == LetterInversion
  {
    AotNotBV();
    AotNotCSZ();
    AotNotAccent();
    AotInversion();
  }
}

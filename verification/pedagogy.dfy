/** What each level practises, and the instruction, feedback and hint the
    game gives on it. Levels 1 to 10 each have a therapeutic focus; any other
    level number falls back to basic writing.
 */
module Pedagogy {
  import opened Outcome
  import opened Text
  import opened Classifier

  datatype Focus =
    | BasicWriting
    | BVPractice
    | CSZPractice
    | AccentPractice
    | OmissionPractice
    | InversionPractice
    | SyllablePractice
    | ComplexWords
    | MixedPractice
    | AdvancedWriting

  /** The `therapeuticFocus`/`levelFocus` code the game reports. */
  function FocusCode(f: Focus): string {
    match f
    case BasicWriting => "basic_writing"
    case BVPractice => "b_v_confusion"
    case CSZPractice => "c_s_z_confusion"
    case AccentPractice => "accent_practice"
    case OmissionPractice => "letter_omission"
    case InversionPractice => "letter_inversion"
    case SyllablePractice => "syllable_practice"
    case ComplexWords => "complex_words"
    case MixedPractice => "mixed_practice"
    case AdvancedWriting => "advanced_writing"
  }

  /** `getLevelTherapeuticFocus`. */
  function FocusOf(levelNumber: int): Focus {
    if levelNumber == 2 then BVPractice
    else if levelNumber == 3 then CSZPractice
    else if levelNumber == 4 then AccentPractice
    else if levelNumber == 5 then OmissionPractice
    else if levelNumber == 6 then InversionPractice
    else if levelNumber == 7 then SyllablePractice
    else if levelNumber == 8 then ComplexWords
    else if levelNumber == 9 then MixedPractice
    else if levelNumber == 10 then AdvancedWriting
    else BasicWriting
  }

  /** Level 1 and every number outside 1..10 practise basic writing, and
      levels 1 to 10 each practise a different skill. */
  lemma FocusOfLevels(a: int, b: int)
    ensures FocusOf(a) == BasicWriting <==> !(2 <= a <= 10)
    ensures 1 <= a < b <= 10 ==> FocusOf(a) != FocusOf(b)
  {
  }

  // ---------------------------------------------------------------- instruction

  const DefaultInstruction := "Escribe las palabras correctamente."

  /** What follows "Nivel <n>: " in the instruction of levels 1 to 10. */
  function InstructionTopic(levelNumber: int): string
    requires 1 <= levelNumber <= 10
  {
    if levelNumber == 1 then "Escritura básica - Escribe palabras simples correctamente."
    else if levelNumber == 2 then "Practica B y V - Presta atención al sonido y las reglas."
    else if levelNumber == 3 then "Practica C, S y Z - Escucha bien si el sonido es suave o fuerte."
    else if levelNumber == 4 then "Practica acentos - Encuentra la sílaba tónica y coloca tildes."
    else if levelNumber == 5 then "Letras completas - Asegúrate de no omitir ninguna letra."
    else if levelNumber == 6 then "Orden correcto - Revisa que las letras estén en su lugar."
    else if levelNumber == 7 then "Separación silábica - Divide las palabras correctamente."
    else if levelNumber == 8 then "Palabras complejas - Combina todo lo aprendido."
    else if levelNumber == 9 then "Práctica mixta - Demuestra todo tu conocimiento."
    else "Maestro de la escritura - ¡Eres un experto!"
  }

  /** "Nivel <n>" followed by `sep`: how instructions and hints open. */
  function LevelOpening(levelNumber: int, sep: string): string {
    "Nivel " + IntToString(levelNumber) + sep
  }

  /** Whatever follows them, two openings with the same separator agree only
      for the same level, as long as the separator does not start with a
      character a number is written with. */
  lemma LevelOpeningNamesLevel(l: int, l': int, sep: string, x: string, x': string)
    requires sep != [] && sep[0] != '-' && !IsDigit(sep[0])
    requires LevelOpening(l, sep) + x == LevelOpening(l', sep) + x'
    ensures l == l'
  {
    var s, s' := IntToString(l), IntToString(l');
    var c, rest := sep[0], sep[1..];
    assert sep == [c] + rest;
    var h := LevelOpening(l, sep) + x;
    assert h == "Nivel " + (s + [c] + (rest + x));
    assert h == "Nivel " + (s' + [c] + (rest + x'));
    assert h[6..] == s + [c] + (rest + x) == s' + [c] + (rest + x');
    IntToStringChars(l, c);
    IntToStringChars(l', c);
    DelimitedRun(s, c, rest + x, s', rest + x');
    IntToStringInjective(l, l');
  }

  /** `getLevelInstruction`: "Nivel <n>: <topic>" for levels 1 to 10, the
      generic instruction otherwise. */
  function Instruction(levelNumber: int): (r: string)
    ensures 1 <= levelNumber <= 10 ==> LevelOpening(levelNumber, ": ") <= r
    ensures !(1 <= levelNumber <= 10) ==> r == DefaultInstruction
  {
    if 1 <= levelNumber <= 10 then LevelOpening(levelNumber, ": ") + InstructionTopic(levelNumber)
    else DefaultInstruction
  }

  /** Exactly the numbers outside 1..10 get the generic instruction. */
  lemma InstructionDefault(l: int)
    ensures Instruction(l) == DefaultInstruction <==> !(1 <= l <= 10)
  {
    if 1 <= l <= 10 {
      assert Instruction(l)[0] == 'N' != DefaultInstruction[0];
    }
  }

  /** The instructions of levels 1 to 10 are told apart by the number they
      open with. */
  lemma InstructionNamesLevel(l: int, l': int)
    requires 1 <= l <= 10 && 1 <= l' <= 10 && l != l'
    ensures Instruction(l) != Instruction(l')
  {
    if Instruction(l) == Instruction(l') {
      LevelOpeningNamesLevel(l, l', ": ", InstructionTopic(l), InstructionTopic(l'));
    }
  }

  // ---------------------------------------------------------------- feedback

  /** The classifier category whose test a focus checks before falling back
      to the classifier; `None` for the focuses with a fixed message. */
  function CheckedCategory(f: Focus): Option<ErrorType> {
    match f
    case BVPractice => Some(ConfusionBV)
    case CSZPractice => Some(ConfusionCSZ)
    case AccentPractice => Some(AccentError)
    case OmissionPractice => Some(LetterOmission)
    case InversionPractice => Some(LetterInversion)
    case _ => None
  }

  /** The level's own sentence for each focus. */
  function LevelMessage(f: Focus): string {
    match f
    case BVPractice => "Este nivel practica B/V. Recuerda: B antes de consonante, V después de N."
    case CSZPractice => "Este nivel practica C/S/Z. Escucha bien: ¿sonido suave o fuerte?"
    case AccentPractice => "Este nivel practica acentos. Pronuncia fuerte la sílaba tónica."
    case OmissionPractice => "Este nivel practica completar letras. Lee despacio, sílaba por sílaba."
    case InversionPractice => "Este nivel practica el orden correcto. Ve despacio, letra por letra."
    case SyllablePractice => "Este nivel practica separación silábica. Divide la palabra paso a paso."
    case _ => "Revisa la escritura. Cada nivel te ayuda con una dificultad específica."
  }

  /** Which sentence the feedback is: the level's own, or the classifier's
      for a category. */
  datatype Remark = LevelRemark(focus: Focus) | ClassifierRemark(category: ErrorType)

  function RemarkText(r: Remark): string {
    match r
    case LevelRemark(f) => LevelMessage(f)
    case ClassifierRemark(e) => Feedback(e)
  }

  /** `getLevelSpecificFeedback`: the level's sentence when its focus has a
      fixed message or its checked test holds, and otherwise the
      classifier's sentence. */
  function LevelFeedback(levelNumber: int, answer: string, correct: string): Remark {
    var f := FocusOf(levelNumber);
    match CheckedCategory(f)
    case Some(e) =>
      if Applies(e, answer, correct) then LevelRemark(f) else ClassifierRemark(Classify(answer, correct))
    case None => LevelRemark(f)
  }

  /** On a level whose focus is checked, the level's sentence is given
      exactly when the focus's test holds, and otherwise the classifier's
      sentence for its first matching category is. */
  lemma LevelFeedbackChecked(levelNumber: int, answer: string, correct: string, e: ErrorType)
    requires CheckedCategory(FocusOf(levelNumber)) == Some(e)
    ensures var r := LevelFeedback(levelNumber, answer, correct);
      && (r.LevelRemark? <==> Applies(e, answer, correct))
      && (r.LevelRemark? ==> r.focus == FocusOf(levelNumber))
      && (r.ClassifierRemark? ==> r.category == Classify(answer, correct))
  {
  }

  /** On the other levels the feedback is the level's sentence whatever the
      answer. */
  lemma LevelFeedbackFixed(levelNumber: int, answer: string, correct: string, answer': string, correct': string)
    requires CheckedCategory(FocusOf(levelNumber)).None?
    ensures LevelFeedback(levelNumber, answer, correct) == LevelFeedback(levelNumber, answer', correct')
    ensures LevelFeedback(levelNumber, answer, correct) == LevelRemark(FocusOf(levelNumber))
  {
  }

  /** On the B/V level a B/V answer gets the level's sentence, and the
      classifier reports the same category for it. */
  lemma BVLevelAgreesWithClassifier(answer: string, correct: string)
    requires HasBVError(answer, correct)
    ensures LevelFeedback(2, answer, correct) == LevelRemark(BVPractice)
    ensures Classify(answer, correct) == ConfusionBV
  {
  }

  // ---------------------------------------------------------------- hint

  /** What separates the level number from the rest of a hint. */
  const HintSeparator := " - "

  /** The tail of a hint that spells out the word letter by letter. */
  function LetterByLetter(w: string): string {
    "Revisa letra por letra: " + JoinLetters(w)
  }

  /** What follows "Nivel <n> - " in the hint for the correct word `w`. */
  function HintBody(f: Focus, w: string): string {
    match f
    case BVPractice =>
      if 'b' in w then "Pista B: Se escribe con B (antes de consonante o después de M)."
      else if 'v' in w then "Pista V: Se escribe con V (después de N o terminaciones -ava, -ave)."
      else LetterByLetter(w)
    case CSZPractice =>
      if 'c' in w then "Pista C: Sonido fuerte antes de A, O, U."
      else if 's' in w then "Pista S: Sonido suave."
      else if 'z' in w then "Pista Z: Sonido fuerte antes de A, O, U."
      else LetterByLetter(w)
    case AccentPractice => "Pista de acentos: Pronuncia fuerte la sílaba tónica y coloca la tilde."
    case OmissionPractice => "Pista: Te falta una letra. Pronuncia despacio cada sílaba."
    case InversionPractice => "Pista: Revisa el orden de las letras, ve despacio."
    case SyllablePractice => "Pista silábica: " + JoinLetters(w)
    case _ => "Pista: Divide en sílabas: " + JoinLetters(w)
  }

  /** `getLevelSpecificHint` (the answer it is passed is not used). */
  function Hint(levelNumber: int, w: string): (r: string)
    ensures LevelOpening(levelNumber, HintSeparator) <= r
  {
    LevelOpening(levelNumber, HintSeparator) + HintBody(FocusOf(levelNumber), w)
  }

  /** The hints that spell the word out: the syllable and default focuses
      always, and the B/V and C/S/Z focuses when the word has none of their
      letters. */
  predicate SpellsWord(f: Focus, w: string) {
    || CheckedCategory(f).None?
    || (f == BVPractice && 'b' !in w && 'v' !in w)
    || (f == CSZPractice && 'c' !in w && 's' !in w && 'z' !in w)
  }

  /** The words in front of the spelled-out word in a spelling hint. */
  function SpellingIntro(f: Focus): string {
    if f == SyllablePractice then "Pista silábica: "
    else if CheckedCategory(f).None? then "Pista: Divide en sílabas: "
    else "Revisa letra por letra: "
  }

  lemma SpellingHintBody(f: Focus, w: string)
    requires SpellsWord(f, w)
    ensures HintBody(f, w) == SpellingIntro(f) + JoinLetters(w)
  {
  }

  lemma SuffixOf(a: string, j: string)
    ensures |j| <= |a + j| && (a + j)[|a + j| - |j|..] == j
  {
  }

  /** A spelling hint ends with the word's letters joined by " - ", from
      which the word can be read back. */
  lemma HintSpellsWord(levelNumber: int, w: string)
    requires SpellsWord(FocusOf(levelNumber), w)
    ensures var h, j := Hint(levelNumber, w), JoinLetters(w);
      |j| <= |h| && h[|h| - |j|..] == j && EveryFourth(h[|h| - |j|..]) == w
  {
    var f := FocusOf(levelNumber);
    var a := LevelOpening(levelNumber, HintSeparator) + SpellingIntro(f);
    SpellingHintBody(f, w);
    assert Hint(levelNumber, w) == a + JoinLetters(w);
    SuffixOf(a, JoinLetters(w));
    JoinLettersReadsBack(w);
  }

  /** The other hints are fixed sentences: they are the same for every word
      that takes the same branch. */
  lemma HintFixed(levelNumber: int, w: string, w': string)
    requires FocusOf(levelNumber) in {AccentPractice, OmissionPractice, InversionPractice}
    ensures Hint(levelNumber, w) == Hint(levelNumber, w')
  {
  }

  /** Hints of different levels never coincide: the level can be read back
      from the hint. */
  lemma HintNamesLevel(l: int, w: string, l': int, w': string)
    requires Hint(l, w) == Hint(l', w')
    ensures l == l'
  {
    LevelOpeningNamesLevel(l, l', HintSeparator, HintBody(FocusOf(l), w), HintBody(FocusOf(l'), w'));
  }
}

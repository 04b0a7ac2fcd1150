/**
 * The user-dictionary word record and the part-of-speech reference rows, with the
 * exceptions the dictionary manager raises. The records' own validation
 * (user_dict/model.py, user_dict/user_dict_word.py) is not part of this model.
 */
module Words {

  /** One stored user word (`UserDictWord`): the fields the compiler's CSV row is built from. */
  datatype Word = Word(
    surface: string,
    priority: int,
    contextId: int,
    partOfSpeech: string,
    partOfSpeechDetail1: string,
    partOfSpeechDetail2: string,
    partOfSpeechDetail3: string,
    inflectionalType: string,
    inflectionalForm: string,
    stem: string,
    yomi: string,
    pronunciation: string,
    accentType: int,
    moraCount: int,
    accentAssociativeRule: string)

  /** One value of `part_of_speech_data`: the POS quadruple a context id stands for. */
  datatype PartOfSpeechDetail = PartOfSpeechDetail(
    partOfSpeech: string,
    partOfSpeechDetail1: string,
    partOfSpeechDetail2: string,
    partOfSpeechDetail3: string,
    contextId: int,
    accentAssociativeRules: seq<string>)

  /** The exceptions the dictionary manager lets through to its caller. */
  datatype DictError =
    | InvalidUuid               // ValueError from UUID(...)
    | UnsupportedPartOfSpeech   // ValueError: no row has the word's context id
    | PartOfSpeechMismatch      // AssertionError: the row with that context id disagrees
    | WordNotFound              // UserDictInputError: no word under that UUID
    | InvalidWord(reason: string) // raised by create_word
    | CompileFailed             // RuntimeError: the compiler left no output file
}

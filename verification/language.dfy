/** `Language` of src/search.rs: the languages a search can be restricted
    to, as a `text_enum!` instance. */
module LanguageCodec {
  import opened Results
  import TextEnum

  datatype Language = English | Spanish | Japanese

  /** The unit error `InvalidLanguage`. */
  datatype InvalidLanguage = InvalidLanguage

  /** The arms of the declaration, in declaration order. */
  const Variants: seq<Language> := [English, Spanish, Japanese]

  /** `Display`: the two-letter lower-case code of each language. */
  function Encode(v: Language): (r: string)
    ensures |r| == 2 && 'a' <= r[0] <= 'z' && 'a' <= r[1] <= 'z'
  {
    match v
    case English => "en"
    case Spanish => "es"
    case Japanese => "ja"
  }

  /** Every variant is one of the declared arms. */
  lemma AllDeclared(v: Language)
    ensures v in Variants
  {
  }

  /** The `text_enum!` instance: the arms in declaration order. */
  function Table(): TextEnum.Codec<Language> {
    TextEnum.Codec(Variants, Encode)
  }

  /** `FromStr`: exact, case-sensitive match against the codes. */
  function Decode(s: string): (r: Result<Language, InvalidLanguage>)
    ensures r.Ok? ==> Encode(r.value) == s
    ensures r.Err? <==> forall v: Language :: Encode(v) != s
  {
    TableWellFormed();
    TextEnum.DecodeRejects(Table(), s, InvalidLanguage);
    TextEnum.Decode(Table(), s, InvalidLanguage)
  }

  /** No two languages share a code. */
  lemma EncodeInjective(a: Language, b: Language)
    ensures Encode(a) == Encode(b) <==> a == b
  {
  }

  /** The code of every language is one of the declared literals. */
  lemma EncodeDeclared(v: Language)
    ensures Encode(v) in TextEnum.Literals(Table())
  {
    AllDeclared(v);
  }

  /** The `Language` arms form a well-formed codec: they cover every
      variant and their codes are pairwise distinct. */
  lemma TableWellFormed()
    ensures Table().WellFormed()
  {
    forall v: Language ensures v in Variants {
      AllDeclared(v);
    }
    forall a: Language, b: Language ensures Encode(a) == Encode(b) ==> a == b {
      EncodeInjective(a, b);
    }
  }

  /** Decoding the code of a language gives the language back. */
  lemma DecodeEncode(v: Language)
    ensures Decode(Encode(v)) == Ok(v)
  {
    TableWellFormed();
    TextEnum.DecodeEncode(Table(), v, InvalidLanguage);
  }

  /** Decoding accepts a text exactly when it is the canonical code of the
      language it returns. */
  lemma DecodeExact(s: string, v: Language)
    ensures Decode(s) == Ok(v) <==> Encode(v) == s
  {
    if Encode(v) == s {
      DecodeEncode(v);
    }
  }

  /** The three codes decode to their languages. */
  lemma DecodesCodes()
    ensures Decode("en") == Ok(English)
    ensures Decode("es") == Ok(Spanish)
    ensures Decode("ja") == Ok(Japanese)
  {
    DecodeEncode(English);
    DecodeEncode(Spanish);
    DecodeEncode(Japanese);
  }

  /** Upper case, padding, longer names and the empty text are rejected;
      no text falls back to a default language. */
  lemma RejectsNearMisses()
    ensures Decode("EN") == Err(InvalidLanguage)
    ensures Decode(" en") == Err(InvalidLanguage)
    ensures Decode("en ") == Err(InvalidLanguage)
    ensures Decode("english") == Err(InvalidLanguage)
    ensures Decode("e") == Err(InvalidLanguage)
    ensures Decode("") == Err(InvalidLanguage)
  {
  }
}

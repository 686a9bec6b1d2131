/** `SortOptions` of src/search.rs: the sort orders a search can request,
    as a `text_enum!` instance. */
module SortOptionsCodec {
  import opened Results
  import TextEnum

  datatype SortOptions =
    | Editions | Old | New | Rating | RatingAscending | RatingDescending
    | ReadingLog | WantToRead | CurrentlyReading | AlreadyRead | Title | Scans
    | LccSort | LccSortAscending | LccSortDescending
    | DdcSort | DdcSortAscending | DdcSortDescending
    | EbookAccess | EbookAccessAscending | EbookAccessDescending
    | Key | KeyAscending | KeyDescending
    | Random | RandomAscending | RandomDescending | RandomHourly | RandomDaily

  /** The unit error `InvalidSortOptions`. */
  datatype InvalidSortOptions = InvalidSortOptions

  /** The arms of the declaration, in declaration order. */
  const Variants: seq<SortOptions> := [
    Editions, Old, New, Rating, RatingAscending, RatingDescending,
    ReadingLog, WantToRead, CurrentlyReading, AlreadyRead, Title, Scans,
    LccSort, LccSortAscending, LccSortDescending,
    DdcSort, DdcSortAscending, DdcSortDescending,
    EbookAccess, EbookAccessAscending, EbookAccessDescending,
    Key, KeyAscending, KeyDescending,
    Random, RandomAscending, RandomDescending, RandomHourly, RandomDaily
  ]

  /** `Display`: the literal of each variant. Total; each literal is
      written here once, and decoding is derived from this table. Every
      literal has at least three characters and no blank at either end. */
  function Encode(v: SortOptions): (r: string)
    ensures 3 <= |r| && r[0] != ' ' && r[|r| - 1] != ' '
  {
    match v
    case Editions => "editions"
    case Old => "old"
    case New => "new"
    case Rating => "rating"
    case RatingAscending => "rating asc"
    case RatingDescending => "rating desc"
    case ReadingLog => "readinglog"
    case WantToRead => "want_to_read"
    case CurrentlyReading => "currently_reading"
    case AlreadyRead => "already_read"
    case Title => "title"
    case Scans => "scans"
    case LccSort => "lcc_sort"
    case LccSortAscending => "lcc_sort asc"
    case LccSortDescending => "lcc_sort desc"
    case DdcSort => "ddc_sort"
    case DdcSortAscending => "ddc_sort asc"
    case DdcSortDescending => "ddc_sort desc"
    case EbookAccess => "ebook_access"
    case EbookAccessAscending => "ebook_access asc"
    case EbookAccessDescending => "ebook_access desc"
    case Key => "key"
    case KeyAscending => "key asc"
    case KeyDescending => "key desc"
    case Random => "random"
    case RandomAscending => "random asc"
    case RandomDescending => "random desc"
    case RandomHourly => "random.hourly"
    case RandomDaily => "random.daily"
  }

  /** Every variant is one of the declared arms. */
  lemma AllDeclared(v: SortOptions)
    ensures v in Variants
  {
  }

  /** The `text_enum!` instance: the arms in declaration order. */
  function Table(): TextEnum.Codec<SortOptions> {
    TextEnum.Codec(Variants, Encode)
  }

  /** `FromStr`: exact, case-sensitive match against the literals. */
  function Decode(s: string): (r: Result<SortOptions, InvalidSortOptions>)
    ensures r.Ok? ==> Encode(r.value) == s
    ensures r.Err? <==> forall v: SortOptions :: Encode(v) != s
  {
    TableWellFormed();
    TextEnum.DecodeRejects(Table(), s, InvalidSortOptions);
    TextEnum.Decode(Table(), s, InvalidSortOptions)
  }

  /** Every variant is declared and no two variants share a literal, so
      "rating", "rating asc" and "rating desc" are three different texts. */
  lemma EncodeInjective(a: SortOptions, b: SortOptions)
    ensures Encode(a) == Encode(b) <==> a == b
  {
  }

  /** The text of every variant is one of the declared literals. */
  lemma EncodeDeclared(v: SortOptions)
    ensures Encode(v) in TextEnum.Literals(Table())
  {
    AllDeclared(v);
  }

  /** The `SortOptions` arms form a well-formed codec: they cover every
      variant and their literals are pairwise distinct. */
  lemma TableWellFormed()
    ensures Table().WellFormed()
  {
    forall v: SortOptions ensures v in Variants {
      AllDeclared(v);
    }
    forall a: SortOptions, b: SortOptions ensures Encode(a) == Encode(b) ==> a == b {
      EncodeInjective(a, b);
    }
  }

  /** Decoding the text of a variant gives the variant back. */
  lemma DecodeEncode(v: SortOptions)
    ensures Decode(Encode(v)) == Ok(v)
  {
    TableWellFormed();
    TextEnum.DecodeEncode(Table(), v, InvalidSortOptions);
  }

  /** Decoding accepts a text exactly when it is the canonical literal of
      the variant it returns. */
  lemma DecodeExact(s: string, v: SortOptions)
    ensures Decode(s) == Ok(v) <==> Encode(v) == s
  {
    if Encode(v) == s {
      DecodeEncode(v);
    }
  }

  /** Near misses of declared literals are rejected: a proper prefix, a
      different case, surrounding blanks, and the empty text. */
  lemma RejectsNearMisses()
    ensures Decode("rating as") == Err(InvalidSortOptions)
    ensures Decode("Rating") == Err(InvalidSortOptions)
    ensures Decode(" rating") == Err(InvalidSortOptions)
    ensures Decode("rating desc ") == Err(InvalidSortOptions)
    ensures Decode("") == Err(InvalidSortOptions)
  {
    forall v: SortOptions ensures Encode(v) != "rating as" {
    }
    forall v: SortOptions ensures Encode(v) != "Rating" {
    }
    forall v: SortOptions ensures Encode(v) != " rating" {
    }
    forall v: SortOptions ensures Encode(v) != "rating desc " {
    }
    forall v: SortOptions ensures Encode(v) != "" {
    }
  }

  /** Declared literals decode to their variants, including the ones that
      differ only by a direction suffix. */
  lemma DecodesLiterals()
    ensures Decode("rating") == Ok(Rating)
    ensures Decode("rating asc") == Ok(RatingAscending)
    ensures Decode("rating desc") == Ok(RatingDescending)
    ensures Decode("random.daily") == Ok(RandomDaily)
  {
    assert Encode(Rating) == "rating";
    assert Encode(RatingAscending) == "rating asc";
    assert Encode(RatingDescending) == "rating desc";
    assert Encode(RandomDaily) == "random.daily";
    DecodeEncode(Rating);
    DecodeEncode(RatingAscending);
    DecodeEncode(RatingDescending);
    DecodeEncode(RandomDaily);
  }
}

# openlibrary-rs search domain, in Dafny

This project models the search-domain core of `openlibrary-rs` (`src/search.rs`):

- the `text_enum!` macro, which turns a list of `Variant => "literal"` arms into an enumeration with an infallible `Display` encoder and an exact-match `FromStr` decoder that returns a unit error `Invalid<Enum>` for any other text (module `TextEnum`);
- its two instances, `SortOptions` with 29 sort orders (module `SortOptionsCodec`) and `Language` with three language codes (module `LanguageCodec`);
- `YearRange`, its `Default` and the validating constructor `YearRange::new` with its `StartsAfterEndError` (module `YearRanges`);
- the behaviour-free declarations `SearchOffset`, `SearchQuery` and `SearchRequest` (module `Search`).

An instance of the macro is a `TextEnum.Codec`: the variants in declaration order plus the encoder. Each literal is written once, in the enumeration's `Encode` function. Decoding is derived from the same arms by a first-match search, just as Rust's `match` tries its arms in order. The main results are:

- every variant round-trips through its text;
- a text decodes to a variant exactly when it is that variant's literal;
- every other text, including near misses such as `"EN"`, `" en"` and `"rating as"`, gets the enumeration's unit error rather than a default variant;
- `YearRange::new` fails exactly when both bounds are present and the end is before the start.

Rust's `usize` is modelled as the newtype `Primitives.Usize` over `0 .. 2^64`. Years are only compared, so no wrap-around arises. Rust's `Option` and `Result` are the datatypes in module `Results`.

## Model

| member | source | states |
|---|---|---|
| TextEnum.FirstMatch | src/search.rs:36-41 | the match arms are tried in declaration order: the result is a declared variant whose literal equals the input exactly and no earlier arm matches; there is no result exactly when no arm's literal equals the input |
| TextEnum.Decode | src/search.rs:31-42 | `from_str` returns a declared variant whose literal is the input, and returns the enumeration's unit error exactly when the input is not among the declared literals |
| TextEnum.DecodeEncode | src/search.rs:22-42 | for any enumeration whose arms cover every variant with pairwise distinct literals, decoding a variant's literal gives that variant back |
| TextEnum.DecodeRejects | src/search.rs:37-40 | for such an enumeration, decoding fails with the unit error exactly when no variant has the input as its literal |
| SortOptionsCodec.Encode | src/search.rs:22-29 | `Display` is total: every sort order has a literal of at least three characters with no blank at either end (the literals at src/search.rs:71-99) |
| SortOptionsCodec.EncodeDeclared | src/search.rs:24-27 | the text `Display` writes for any sort order is one of the literals the decoder matches against |
| SortOptionsCodec.AllDeclared | src/search.rs:68-101 | every `SortOptions` variant appears among the declared arms |
| SortOptionsCodec.EncodeInjective | src/search.rs:71-99 | two sort orders have the same text exactly when they are the same order, so "rating", "rating asc" and "rating desc" all differ |
| SortOptionsCodec.TableWellFormed | src/search.rs:68-101 | the `SortOptions` arms cover every variant and their 29 literals are pairwise distinct |
| SortOptionsCodec.Decode | src/search.rs:31-42 | decoding a sort text yields a variant whose literal is that text, and fails with `InvalidSortOptions` exactly when no variant has it as its literal |
| SortOptionsCodec.DecodeEncode | src/search.rs:22-42 | `from_str(v.to_string()) == Ok(v)` for every sort order |
| SortOptionsCodec.DecodeExact | src/search.rs:24-38 | `from_str(s) == Ok(v)` holds exactly when `v.to_string() == s`, so only the canonical literal is accepted |
| SortOptionsCodec.RejectsNearMisses | src/search.rs:37-40 | a proper prefix ("rating as"), a case variant ("Rating"), padded texts and the empty text all give `InvalidSortOptions` |
| SortOptionsCodec.DecodesLiterals | src/search.rs:74-76 | "rating", "rating asc", "rating desc" (and "random.daily", src/search.rs:99) decode to their own distinct variants |
| LanguageCodec.Encode | src/search.rs:22-29 | `Display` is total: every language has a two-letter lower-case code (the codes at src/search.rs:106-108) |
| LanguageCodec.EncodeDeclared | src/search.rs:24-27 | the code `Display` writes for any language is one of the codes the decoder matches against |
| LanguageCodec.AllDeclared | src/search.rs:103-110 | every `Language` variant appears among the declared arms |
| LanguageCodec.EncodeInjective | src/search.rs:106-108 | two languages have the same code exactly when they are the same language |
| LanguageCodec.TableWellFormed | src/search.rs:103-110 | the `Language` arms cover every variant and their codes are pairwise distinct |
| LanguageCodec.Decode | src/search.rs:31-42 | decoding a language code yields a language whose code is that text, and fails with `InvalidLanguage` exactly when no language has it as its code |
| LanguageCodec.DecodeEncode | src/search.rs:22-42 | `from_str(v.to_string()) == Ok(v)` for every language |
| LanguageCodec.DecodeExact | src/search.rs:24-38 | `from_str(s) == Ok(v)` holds exactly when `v.to_string() == s` |
| LanguageCodec.DecodesCodes | src/search.rs:105-109 | "en", "es" and "ja" decode to English, Spanish and Japanese |
| LanguageCodec.RejectsNearMisses | src/search.rs:37-40 | "EN", " en", "en ", "english", "e" and the empty text all give `InvalidLanguage`, never a default language |
| YearRanges.Default | src/search.rs:189-193 | the default range has neither bound and satisfies the ordering invariant |
| YearRanges.New | src/search.rs:195-206 | `new` succeeds exactly when the bounds are ordered (either absent, or start not after end) and then stores both unchanged; otherwise it fails with `StartsAfterEndError(start, end)`, whose end is before its start |
| YearRanges.NewOrdered | src/search.rs:199-206 | every range `new` builds keeps the invariant that a present start is not after a present end |
| YearRanges.NewRebuilds | src/search.rs:201-203 | every ordered range is rebuilt unchanged by `new` from its own bounds |
| YearRanges.ErrorRebuilds | src/search.rs:195-202 | the error carries the given bounds verbatim and in order, so calling `new` again with the reported pair gives the same error |
| YearRanges.NewBothPresent | src/search.rs:201-203 | with both bounds present, `new(Some(a), Some(b))` is `Err(StartsAfterEndError(a, b))` exactly when `b < a`, and succeeds exactly when `a <= b`, equality included |
| YearRanges.NewOneSided | src/search.rs:201-203 | with either bound absent, `new` always succeeds and keeps the bounds |
| YearRanges.DefaultIsUnbounded | src/search.rs:189-203 | `new(None, None)` succeeds and equals the default range, so "unbounded" is always valid |

## Left out

- `src/auth.rs` (`login`, `AuthRequest`, `LoginError`) is an asynchronous HTTP exchange through an external client, with cookie state. It is network I/O.
- `src/lib.rs` (`OpenLibrarySession::new`) only wraps the HTTP client builder. Note that `mod search` is commented out in `src/lib.rs`, so `src/search.rs` is not compiled into the crate.
- `SearchResponse`, `Document`, `EbookAccess` and `DocumentType` (src/search.rs:124-187) are decoded entirely by serde derives, a library outside this model. `EbookAccess` has a placeholder attribute and no wire strings, so none are invented here.
- `SearchOffset`, `SearchQuery` and `SearchRequest` are declared as datatypes only. The source gives them no operations: there is no query-to-parameter encoding, no clause joining, no range bracket syntax and no page-to-offset arithmetic; the model asserts none of them.
- The `Display` texts of the error types ("Invalid Value", "Start in year …") and the `Debug`, `Copy` and serde derives are formatting and plumbing with no logic.
- The generated error structs are distinct per enumeration. They are modelled as the unit datatypes `InvalidSortOptions` and `InvalidLanguage`. The generic `TextEnum.Decode` takes that error value as a parameter.

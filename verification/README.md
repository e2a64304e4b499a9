# Verification model of icebergr

icebergr reads and appends to Apache Iceberg tables from R, through a Rust
library. This project models the parts of it where a mistake would go unnoticed
(rows silently dropped or kept, secrets left in an error message, files left
behind, a session that hangs) and proves what each part is for. Everything is
stated for all inputs, all runs or all reachable states.

* **The filter compiler** (`Translate`, `Wire`, `JsonText`, `Compiler`, `Iceberg`,
  `RLogic`, `Preservation`, `Pruning`, `Pushdown`, `Acceptance`, `Referenced`). An R expression is translated to
  a tree, printed as JSON, read back, and compiled into a pair of Iceberg predicates,
  one for the rows where R says TRUE and one for those where R says FALSE. R's logic and
  Iceberg's are two evaluators here, which disagree about NA, NaN, the two zeros, `%in%`
  and columns a file does not have; the compiler is proved to preserve meaning between
  them, and pruning by file statistics to be invisible.
* **R's own comparisons** (`OwnValues`, `OwnText`, `OwnCases`, `OwnSets`, `OwnFilters`): what R
  makes of a column and a value before any typing, and exactly when the typed literal, or
  the typed set, answers alike.
* **Literals and names** (`Literals`, `DecimalText`, `Names`): how a JSON value is typed by
  its column, exact decimal text, and which column a name means along the whole chain.
* **Error text** (`ScrubUserinfo`, `ScrubText`, `ScrubSpans`, `ScrubTwice`, `ScrubSecrets`,
  `ScrubResults`, `ScrubExactly`, `ErrorText`, with `Gathering`, `Sorting`, `Utf8`): the two scrubbers, byte by
  byte. The parameter scrubber is specified as one scan from the left; the loops, key by
  key with a sort, are proved to compute it.
* **State machines**: the append (`MetadataNames`, `Align`, `Append`, `AppendResults`), the batch reader and
  its draining (`Reader`), waiting for a future (`BlockOn`), the snapshot log (`Snapshots`) and
  namespace creation (`Namespaces`).
* **Convex clipping** (`Clip`, `Chords`, `Winding`), over exact reals.

Methods follow the loops and the fields of the source and are proved against
specification functions; the lemmas are about those functions. Where a
specification is read off the code, a lemma ties it to an independent statement of
what it means.

What the model takes as given: Iceberg's evaluators (Kleene connectives; a
comparison or set test of null is null; floats in the total order of section 5.10 of
IEEE 754-2019; the constants for a column the file lacks as the source comments state
them); inclusive bounds over values that are neither null nor NaN; library parsers of
dates, UUIDs and numbers, R's number and date formatting, Arrow casts, the writer, the
catalog, the clock and the signal handler as parameters. The decimal text of a number is
the integer, or a decimal that the double is the nearest to. On R's side: a number is a
double, and its token stands for it; integers, days and
integer64 are exact, other columns of numbers are doubles in order, and an instant's
number of seconds is within half its distance from the epoch. Strings are ordered as
UTF-8 bytes, as R does in the C locale. A name is lowered by a function of which nothing is assumed.

## Where the code and its documentation differ

* `R/scan.R:54-55` promises the rows R's own evaluation would keep. The code types each
  literal by its column, and that literal need not answer as R's value does.
  `OwnValues.AgreesExactly` says for which values it does, for every class of value,
  column type and operator, `OwnSets.SetsAlikeExactly` for which sets, and `OwnFilters`
  carries both to whole filters. They fail for a bare number against an instant, which is
  seconds to R (`OwnCases.SecondsAgainstMicroseconds`, and in a set `OwnSets.SecondsInASet`),
  for a text against a number, which R compares as texts (`OwnCases.TextAgainstNumber`), for
  a number between two singles (`OwnCases.NumberBetweenSingles`), and for an integer64
  against a decimal, which R truncates (`OwnCases.DecimalAgainstInteger64`).
* `R/filter.R:376-382` has an instant that is read out of a table match itself. It does if
  and only if rounding to microseconds gives it back and R tells it from its neighbours, by
  `OwnCases.ReadBackInstantsExactly`; one that has nanoseconds does not
  (`OwnCases.NanosecondIsLost`).
* Nothing limits how many conditions a filter joins (`R/scan.R:44-53`), but the parser that
  reads it refuses text nested 128 deep: `Wire.SixtyFiveAreRefused`.
* `src/rust/src/table.rs:99-108` argues from snapshots that name their schema. One that names
  none is read with the current schema, so a schema change does change that read:
  `Snapshots.AlteringChangesExactly`.
* `src/rust/src/errors.rs:143` says that a skipped cut is already covered. It need not be:
  a value that starts inside a replaced one may end after it.
  `ScrubResults.SecretsCoveredExactly` is the exact condition, `ScrubResults.SkippedCanOutrun`
  a text where it fails.
* The parameter scrubber is not idempotent: `ScrubResults.TwiceCanDiffer` is a text, and
  `ScrubSecrets.ScrubbingTwice` the exact condition (no two replaced values touching is
  enough, by `ScrubResults.ApartIsSettled`). The userinfo scrubber is idempotent.

## Model

| member | source | states |
|---|---|---|
| Preservation.CompilerIsCorrect | src/rust/src/predicate.rs:169-260 | For every tree of any depth, schema and row (value, null, NaN, either zero, or a column the file lacks): the first half of the built pair is TRUE in Iceberg exactly when R's value is TRUE, and the second half exactly when it is FALSE |
| Preservation.FoldIsCorrect | src/rust/src/predicate.rs:215-233 | The same of a conjunction or a disjunction of any number of arguments, folded from the left |
| Preservation.ComparisonCaptures | src/rust/src/predicate.rs:327-384 | A comparison with a literal, guarded for null and NaN, captures R's comparison, NA included; -0 and 0 are one number |
| Preservation.FloatCompareIsNumeric | src/rust/src/predicate.rs:320-343 | Restated against a zero, a comparison in IEEE total order is the numeric one |
| Preservation.MissingCaptures | src/rust/src/predicate.rs:386-397 | `is.na` is TRUE of null, of NaN and of an absent column, and never NA |
| Preservation.PrefixCaptures | src/rust/src/predicate.rs:445-475 | `startsWith` and its negation, NA on a missing value |
| Preservation.MembershipCaptures | src/rust/src/predicate.rs:399-443 | `%in%` is never NA, whatever zeros and how many literals the set has |
| Compiler.Build | src/rust/src/predicate.rs:211-260 | The recursion with its loops over `t` and `f` builds the pair of the tree, or gives the first error |
| Compiler.Membership | src/rust/src/predicate.rs:406-443 | The pair built by updating `t` and `f` is the one `%in%` stands for |
| Compiler.FirstErrorWins | src/rust/src/predicate.rs:215-233 | An error in one argument is the error of the whole, whatever follows it |
| Pruning.PruningIsInvisible | src/rust/src/predicate.rs:178-186 | Whenever either half of a built pair is TRUE of a row, the inclusive test of that predicate does not rule out any statistics true of the row, with bounds over values that are neither null nor NaN |
| Pruning.LoneLeafIsUnsafe | src/rust/src/predicate.rs:178-186 | A single comparison would not have that property: one NaN row and `x > 1` show it |
| Pruning.MembershipKeeps | src/rust/src/predicate.rs:399-443 | Set tests with zeros taken out, and their complements, keep every file they must |
| Pruning.ScanReturnsRsRows | src/rust/src/predicate.rs:186-192 | A scan that prunes files and filters rows returns, in order, exactly the rows of all files that R would keep |
| Pruning.RowsInOrder | src/rust/src/predicate.rs:186-192 | Files are read one after another, and what is kept of their rows stays in order |
| Translate.TranslationIsFaithful | R/filter.R:125-336 | Under any reading in which an operator that stands for a symbol answers as the symbol does, an accepted expression and the tree it becomes have one value on every row. R's value is told by its own symbols, on how two values are ordered and in Kleene's logic: parentheses, connectives, reversed operands and the direct forms of `!is.na` and `!is.nan` included |
| Translate.SymbolsAreOperators | R/filter.R:12-19 | Each of the six symbols becomes the operator that holds of an order exactly where the symbol says so, and its flipped form the one that does with the operands reversed; nothing else is a comparison |
| Translate.TranslatesExactly | R/filter.R:125-336 | An expression is translated if and only if it is a filter of the language: each call with its own number of arguments, names that mean one column, and values that mention no column, of one element where one is needed and without NA in a set |
| Pushdown.MeaningOfComparison | R/filter.R:301-333 | On a row, `column < value` is TRUE if and only if the number, text or truth value there is below the typed literal, and so on for the six symbols; it is NA without a value |
| Pushdown.MeaningOfReversed | R/filter.R:301-333 | The same of `value < column` |
| Pushdown.ReversedIsFlipped | R/filter.R:18-19 | A symbol between a value and a column answers as the operator that stands for it reversed |
| Pushdown.PushedExactly | src/rust/src/predicate.rs:114-121 | A filter is pushed down if and only if it translates, its values can be sent, it is nested at most 127 deep and what is sent compiles; the scan is then given the first half of the pair |
| Pushdown.PushedFilterKeepsRsRows | R/filter.R:125-336 | End to end, through translating, printing, reading, compiling and pruning: from any files, in order, exactly the rows on which the original expression is TRUE, with its literals as their columns type them |
| Acceptance.AcceptedExactly | src/rust/src/predicate.rs:114-121 | The same from the expression alone: a filter is pushed down if and only if it is one of the language, its values are neither missing nor infinite, it is nested at most 127 deep, and its columns and values can be compiled |
| Acceptance.SendsExactly | R/filter.R:398-468 | A tree can be sent if and only if no value in it is NA, NaN, infinite or of another class |
| Acceptance.BuildsExactly | src/rust/src/predicate.rs:211-260 | What is sent compiles if and only if every column it names is a field that is no struct, list or map, every value stands for something there, and prefixes are asked of texts |
| OwnValues.AgreesExactly | src/rust/src/predicate.rs:534-680 | R's own comparison of a column with a value (days, seconds, text, unrounded doubles, an integer64 that truncates a decimal) and the comparison with the typed literal answer alike of everything the column can hold, NA included, if and only if the value lies where `Placed` says; for every class of value, column type and operator |
| OwnText.TextAnswersExactly | src/rust/src/predicate.rs:558 | A text against integers that R writes out: of 32 bits, of 64 bits held as doubles, or decimals. Equality agrees if and only if the text is the integer as R writes it and no other integer of the column is written so; an order of integers only for a few texts that read as 0, 1 or an end of the range |
| OwnCases.BareNumbersOfInstants | src/rust/src/predicate.rs:615-640 | A bare number against an instant, seconds to R and micro- or nanoseconds to the code: agrees if and only if it is 0, or lies beyond every instant |
| OwnCases.NumbersAgree | src/rust/src/predicate.rs:590-600 | A number agrees with 32-bit integers, with 64-bit ones read as integer64, and with dates as a number of days |
| OwnCases.NumberIsScaled | src/rust/src/predicate.rs:645-671 | A number for a decimal column is typed if and only if its decimal text is a whole number of units at the column's scale that fits its precision; it is then that many units: exactly if the number is whole, and as the double nearest to them otherwise |
| OwnCases.NumbersOfDecimals | src/rust/src/predicate.rs:645-671 | Where R holds decimals as the nearest doubles, such a number agrees for equality if and only if no neighbouring decimal has the same double, and for an order if and only if none on the side it needs has |
| OwnCases.Integers64Agree | src/rust/src/predicate.rs:556-560 | An integer64 agrees with columns of integers |
| OwnCases.DatesExactly | R/filter.R:446-448 | A date, sent as the day it falls in, agrees for `<=` and `>`, and for the others if and only if it is a whole day |
| OwnCases.ReadBackInstantsExactly | R/filter.R:371-395 | An instant read out of a table of either resolution and sent back: equality agrees if and only if the instant sent is the one stored and R tells it from its neighbours; an order, if and only if the one sent is the first, or the last, that R holds as that number |
| OwnCases.ReadBackInstantsAgree | R/filter.R:371-395 | A whole number of microseconds that R holds to within half of one, and tells from its neighbours, is typed as the very value stored and agrees whatever the operator |
| OwnSets.SetsAlikeExactly | src/rust/src/predicate.rs:399-443 | `%in%` with a vector of any class, for every column type: the set the filter is compiled with and R's own set are one, of everything the column can hold, if and only if the values lie where `SetPlaced` says, in terms of the values, the typed literals and the numbers or texts of their neighbours |
| OwnSets.SetsOfNumbersExactly | src/rust/src/predicate.rs:399-443 | Numbers, dates, instants and integer64s for columns of integers and decimals: if and only if each typed literal has the number of some value, the set has every neighbour with the same number, and each value is the number of a member or of nothing in the column |
| OwnSets.SetsOfTextsExactly | src/rust/src/predicate.rs:556-560 | The same of texts, with what R writes for each integer |
| OwnSets.SetsOfDigitsExactly | src/rust/src/predicate.rs:556-560 | Texts for 32-bit integers: if and only if each integer they read as, written out, is one of the texts |
| OwnSets.SetsOfBareNumbers | src/rust/src/predicate.rs:615-640 | Bare numbers for an instant: if and only if every one of them is 0 |
| OwnSets.SetsOfDatesExactly | R/filter.R:446-448 | Dates: if and only if the day of each date that has a part of one is itself among the dates |
| OwnCases.SetsOfSinglesExactly | src/rust/src/predicate.rs:602 | Of numbers for a single-precision column, if and only if each, rounded, is one of the numbers |
| OwnFilters.ComparisonExactly | R/scan.R:54-60 | On every row a comparison pushed down has R's own value if and only if its literal answers alike |
| OwnFilters.SetExactly | R/scan.R:54-60 | The same of `%in%` |
| OwnFilters.PlacedLiteralsAgree | R/scan.R:54-60 | Values that lie where the exact condition of their comparison, or of their set, asks agree all through a filter |
| OwnFilters.PushedFilterKeepsOwnRows | R/scan.R:54-60 | End to end: an accepted filter whose literals agree returns exactly the rows R's own evaluation of the expression keeps |
| OwnCases.SecondsAgainstMicroseconds | src/rust/src/predicate.rs:619 | `ts > 1700000000` keeps an instant of 2001, which R would not |
| OwnCases.TextAgainstNumber | src/rust/src/predicate.rs:558 | `id < "10"` keeps 9, which R would not |
| OwnCases.NumberBetweenSingles | src/rust/src/predicate.rs:602 | `x == 1 + 2^-30` keeps a single that R would not |
| OwnCases.NanosecondIsLost | R/filter.R:371-395 | The instant a nanosecond after the epoch, read out of a nanosecond column and sent back, is the epoch: `ts == x` drops its own row |
| OwnCases.DecimalAgainstInteger64 | src/rust/src/predicate.rs:645-671 | `price == as.integer64(5)` drops 5.25, which R truncates before it compares |
| OwnSets.SecondsInASet | src/rust/src/predicate.rs:615-640 | `ts %in% 1700000000` keeps an instant that is not in R's set |
| Translate.ColumnsAreNotLocals | R/filter.R:79-101 | Binding, rebinding or removing variables that have the names of columns changes no translation, where an expression is evaluated from the variables it names |
| Referenced.ReferencedColumns | src/rust/src/predicate.rs:142-167 | The pushes collect every column named, in order |
| Referenced.CollectedExactly | src/rust/src/predicate.rs:142-167 | Just the columns named somewhere in the tree are collected |
| Referenced.CollectedInOrder | src/rust/src/predicate.rs:142-167 | Those of the first arguments come first |
| Referenced.BuiltTestsWhatIsNamed | src/rust/src/predicate.rs:124-134 | Every name collected resolved while the pair was built, and the pair tests no field but those |
| Referenced.DecimalsAreSeen | src/rust/src/scan.rs:62-71 | A predicate that reads a decimal column always comes with the switch that turns row selection off |
| Wire.ReaderUndoesPrinter | src/rust/src/predicate.rs:120-121 | What the R side prints for a tree with formatted numbers, the Rust side reads as the same tree if it is nested at most 127 deep, and refuses otherwise |
| Wire.WrittenDepth | R/filter.R:482-514 | The text is nested two levels for a connective and its arguments, one for a negation, and two for a set |
| Wire.SixtyFiveAreRefused | src/rust/src/predicate.rs:120-121 | Of comparisons joined by the operator for or, 64 are read and 65 are refused |
| Wire.FilterToJsonAgrees | R/filter.R:398-514 | The text is the JSON of the tree, or the first error |
| Wire.FromJsonUndoesToObject | src/rust/src/predicate.rs:22-90 | Reading the tagged object gives the node back |
| Wire.IsoUtcIsNearest | R/filter.R:371-395 | The instant sent is the nearest microsecond, the even one of two as near: a whole second and six digits from 0 to 999999 that count forwards from it |
| JsonText.JsonString | R/filter.R:343-369 | Substituting one character after another over the whole text is escaping each character once |
| JsonText.ReadStringUndoesEscape | R/filter.R:343-369 | Reading an escaped string (section 7 of RFC 8259) gives it back, whatever follows |
| JsonText.ReadDocumentUndoesShow | src/rust/src/predicate.rs:120-121 | A JSON value that is written is read back if it is nested at most 127 deep (the limit of serde_json 1.0.151), and refused otherwise |
| Literals.AsInt64IsExact | src/rust/src/predicate.rs:552-584 | The conversion to 64 bits succeeds exactly on integers that fit, and changes none |
| Literals.DatumExactly | src/rust/src/predicate.rs:534-680 | For every JSON value and column type: it is typed as a literal if and only if the literal is what the value stands for there (the number it denotes, the text, the decimal at the column's scale, the instant or UUID the library reads), within the column's range |
| Literals.ParsesExactly | src/rust/src/predicate.rs:556-560 | A text is read as an integer if and only if it is a sign or none and digits, and as the integer they write |
| Literals.NarrowedComparison | src/rust/src/predicate.rs:602 | For all singles, comparing with the narrowed literal answers as comparing with the literal itself if and only if the literal is a single or was rounded away from the side the operator includes |
| DecimalText.RescaleSucceedsExactly | src/rust/src/predicate.rs:751-808 | Succeeds exactly when the trimmed text is a plain decimal whose digits past the scale are zeros |
| DecimalText.RescaledDenotesTheSame | src/rust/src/predicate.rs:751-808 | The result has exactly `scale` fraction digits and denotes the number that was written |
| DecimalText.RescaledExactly | src/rust/src/predicate.rs:751-808 | A text is `n` units at a scale if and only if, trimmed, it spells a decimal equal to `n` over ten to the scale |
| DecimalText.TrimIs | src/rust/src/predicate.rs:751-808 | Trimming takes off the spaces at both ends and nothing else |
| DecimalText.SpacesAre | src/rust/src/predicate.rs:751-808 | The 25 code points that are spaces |
| DecimalText.MantissasOrderAsNumbers | src/rust/src/predicate.rs:751-808 | At one scale, unscaled mantissas are ordered as the numbers |
| Names.ColumnIndexExactly | R/utils.R:260-289 | A name resolves to a column if and only if it is the first spelled so, or, case ignored and none spelled so, the only one that differs in case alone; to none if and only if no column is spelled so, case ignored or not |
| Names.AmbiguousExactly | R/utils.R:260-289 | Refused as ambiguous exactly with no exact match and two or more candidates |
| Names.ResolvedNameIsStable | R/utils.R:260-289 | What a name resolves to resolves to itself, in either mode |
| Names.ReferenceBindsExactName | src/rust/src/predicate.rs:478-531 | An exact name binds to its own field whatever the upstream map holds |
| Names.ReferenceFolds | src/rust/src/predicate.rs:478-531 | A name no field has is looked up upstream, and only with case ignored |
| Names.ResolutionAgrees | R/filter.R:21-35 | What R resolves a name to is the field the predicate binds |
| Names.FallbackSchema | src/rust/src/scan.rs:94-132 | The loop gives one field per selected name, in order, or fails on a name without an exact match |
| Names.SelectAcceptedExactly | R/scan.R:177-258 | A projection is accepted if and only if it names something, every name means a column and no two the same one; each refusal is given for its own reason, with the names that are missing |
| Names.AcceptedSelectIsListed | R/scan.R:177-258 | A projection R accepts is never refused later; an empty result lists the resolved columns in order, none twice |
| ScrubExactly.CutsExactly | src/rust/src/errors.rs:76-134 | By the codes of the bytes alone: what is replaced at a byte is exactly the value of a secret there, a key in either case that ends no longer word, a separator, and what follows up to where the value ends |
| ScrubExactly.KeyAtExactly | src/rust/src/errors.rs:77-81 | A text starts with a key if and only if each byte is the key's, or the capital 32 codes below it |
| ScrubExactly.BytesAre | src/rust/src/errors.rs:57-101 | The codes of the bytes that make a longer word, of spaces and of quotes |
| ScrubExactly.SecretNames | src/rust/src/errors.rs:17-29 | The eleven keys |
| ScrubExactly.TrailExactly | src/rust/src/errors.rs:91-119 | A value starts after a key if and only if a quote that closes the key or none, spaces and `=` or `:` come between, then spaces unless the key is bare and the separator a colon |
| ScrubExactly.ValueExactly | src/rust/src/errors.rs:121-129 | A quoted value runs to the first such quote that an even number of backslashes precede; any other to the first byte that ends one |
| ScrubExactly.EndingExactly | src/rust/src/errors.rs:124-128 | What ends an unquoted value: seven marks, and every space of Unicode in UTF-8 |
| ScrubExactly.SecretIsRedacted | src/rust/src/errors.rs:76-151 | Each key, in any case, with `=` and a value of ordinary bytes, comes out with `<redacted>` for the value |
| ScrubExactly.SignatureIsRedacted | src/rust/src/errors.rs:15-16 | `X-Amz-Signature=deadbeef` comes out as `X-Amz-Signature=<redacted>` |
| ErrorText.ScrubParams | src/rust/src/errors.rs:76-151 | Key by key, with the sort and the moving `at`, the text computed is that of one scan from the left |
| ErrorText.CutsOfKey | src/rust/src/errors.rs:79-134 | The occurrences of one key give its spans, in order |
| ErrorText.CutAfterKey | src/rust/src/errors.rs:84-132 | What one occurrence adds: the value past a separator with only quotes and spaces about it, up to where a value ends; nothing inside a word, without a separator or where the value ends at once |
| ErrorText.QuotedLen | src/rust/src/errors.rs:61-73 | A quoted value runs to its closing quote, past any backslash and the byte after it, or to the end |
| ErrorText.EveryKeyTogether | src/rust/src/errors.rs:77-134 | The cuts found key by key are the values found position by position |
| ErrorText.Rejoin | src/rust/src/errors.rs:139-150 | Copying with a moving `at` replaces the spans that apply |
| ScrubSpans.ScrubbingSplices | src/rust/src/errors.rs:138-150 | Applied cuts are in range, in order and disjoint; each is replaced by the placeholder and every other byte is kept where it stands |
| ScrubSpans.SpansAreSorted | src/rust/src/errors.rs:138 | Values are found in the order the sort puts them in |
| ScrubResults.ScrubbedIsUtf8 | src/rust/src/errors.rs:79-150 | Of UTF-8 text every key found, what follows it (with or without a value) and every cut start and end on character boundaries, and the result is UTF-8 |
| ScrubResults.NoSecretSurvives | src/rust/src/errors.rs:75-151 | Wherever a key and a separator are found in scrubbed text, the placeholder comes next |
| ScrubSecrets.ScrubbingTwice | src/rust/src/errors.rs:75-151 | A second pass changes nothing if and only if no replaced value, its key kept, ends exactly where the next replaced value starts |
| ScrubResults.ApartIsSettled | src/rust/src/errors.rs:138-150 | In particular, nothing changes when no two replaced values touch |
| ScrubResults.TwiceCanDiffer | src/rust/src/errors.rs:141-145 | A text that a second pass changes |
| ScrubResults.SecretsCoveredExactly | src/rust/src/errors.rs:141-145 | Every value found is inside a replaced one if and only if no skipped value ends after the replaced one it starts in |
| ScrubResults.SkippedCanOutrun | src/rust/src/errors.rs:141-145 | A text in which one does |
| ScrubUserinfo.ScrubUserinfo | src/rust/src/errors.rs:32-54 | The loop ends on every text, and computes the text of the URLs read one after another and cleaned |
| ScrubUserinfo.FindsFirst | src/rust/src/errors.rs:35 | The part is found where it first is, and nowhere if and only if it is nowhere |
| ScrubExactly.AuthorityEndExactly | src/rust/src/errors.rs:39-41 | `/`, `?`, `#` and every space of Unicode end an authority |
| ScrubExactly.UserinfoIsRedacted | src/rust/src/errors.rs:32-54 | An address with a user comes out as `scheme://<redacted>@host` and what follows |
| ScrubUserinfo.ReadingIsExact | src/rust/src/errors.rs:35-42 | A text is exactly its URLs: heads up to the first `://`, authorities up to the first byte that ends one, and what follows |
| ScrubUserinfo.CleanIs | src/rust/src/errors.rs:43-49 | Of an authority, what comes before its last `@` is replaced; without one it is kept |
| ScrubUserinfo.ScrubbingTwice | src/rust/src/errors.rs:31-54 | A second pass changes nothing |
| ScrubUserinfo.ScrubbedIsUtf8 | src/rust/src/errors.rs:35-49 | Of UTF-8 text every split is between characters, and the result is UTF-8 |
| MetadataNames.CommittableNames | src/rust/src/write.rs:43-52 | A name is committable if and only if it is `<version>-<uuid>.metadata.json`, perhaps gzipped, the version of 32 bits |
| MetadataNames.CommittableLocations | src/rust/src/write.rs:66-77 | A location is refused if and only if it is not such a file in a directory named `metadata` |
| Align.AlignBatch | src/rust/src/write.rs:103-200 | The loops give the columns in table order, or the first refusal: repeated names, unexpected names, then the first field that is missing or cannot be cast |
| Align.AcceptedExactly | src/rust/src/write.rs:103-200 | Accepted with given columns if and only if the names are the table's, each once, every cast succeeds and the columns fit |
| Align.AcceptedIsValid | src/rust/src/write.rs:151-199 | An accepted batch has the table's names and types, and its rows |
| Align.RefusedFor | src/rust/src/write.rs:103-200 | A batch that is refused is refused for the first reason there is: just the repeated names, just the unexpected ones, the first field that is missing or cannot be cast, or a null where none may be |
| Align.OrderMakesNoDifference | src/rust/src/write.rs:98-102 | Every permutation of the columns gives the same result or the same refusal |
| Append.Warehouse.Append | src/rust/src/write.rs:216-384 | The whole procedure leaves the state and the result that its checks, writes and commit call for, whichever call upstream fails |
| Append.Warehouse.ReadAll | src/rust/src/write.rs:300-311 | The batches with rows, aligned, and their total, or the first failure |
| Append.Warehouse.WriteBatch | src/rust/src/write.rs:356-363 | Slices are handed over in order until one fails |
| AppendResults.SucceedsExactly | src/rust/src/write.rs:216-384 | An append succeeds if and only if, told from the request: as many values as keys, no partitions, a schema, a location that conforms where the catalog is a memory or Glue one, every batch readable and every one with rows aligned, some batch with rows, a known compression, and every call upstream a success |
| AppendResults.NothingToAppendExactly | src/rust/src/write.rs:300-318 | It reports that there was nothing to append if and only if every check passes and no batch has rows, and then writes nothing |
| AppendResults.FailsFor | src/rust/src/write.rs:216-384 | Any other append fails for the first reason there is, down to which batch and why |
| AppendResults.LeavesBehind | src/rust/src/write.rs:356-384 | The slices handed over are those before the first call that fails, and none if the writer is not reached |
| AppendResults.SlicesCounted | src/rust/src/write.rs:356-363 | A batch is handed over in slices of 65536 rows, the last one excepted |
| AppendResults.BatchesInOrder | src/rust/src/write.rs:300-311 | The batches with rows are aligned and kept in the order they came |
| AppendResults.RowsInPlace | src/rust/src/write.rs:355-384 | Each row has its own cell of each column, and comes after all rows of the batches before |
| AppendResults.LastValueWins | src/rust/src/write.rs:366-367 | The properties of a snapshot are the keys, each with the value it came with last |
| Append.WritesNeedEveryCheck | src/rust/src/write.rs:224-355 | Nothing is written unless the table is unpartitioned, its location committable where that matters, every batch aligned, some batch has rows and the compression is known |
| Append.AppendExtends | src/rust/src/write.rs:316-384 | Files and snapshots only grow, slices are non-empty and of at most 65536 rows, and only success adds a snapshot, of just the rows written |
| Append.SuccessAppendsEveryRow | src/rust/src/write.rs:355-384 | On success the new slices join to the aligned rows in order, and the snapshot holds them and the properties |
| Append.SlicesAreTheRows | src/rust/src/write.rs:356-363 | Slices, none empty or too long, concatenate to the rows |
| Append.EveryRunIsConsistent | src/rust/src/write.rs:216-384 | After every run of appends, failed ones too, each snapshot's rows are stored whole and in order |
| Reader.Open | src/rust/src/arrow_bridge.rs:58-78 | The first batch is pulled for its schema and kept to be yielded; nothing is lost or repeated |
| Reader.BlockingBatchReader.NextBatch | src/rust/src/arrow_bridge.rs:81-98 | One item, from what is pending or from the scan, which is never polled after it ended or failed |
| Reader.BlockingBatchReader.Next | src/rust/src/arrow_bridge.rs:101-133 | The items come in order; after an error or a panic there are none, and the scan is not polled again |
| Reader.YieldsTheBatches | src/rust/src/arrow_bridge.rs:81-133 | What comes out is what the scan gives before it ends, fails or panics, then at most the one error |
| Reader.AtMostOneErrorLast | src/rust/src/arrow_bridge.rs:81-133 | Whatever the scan gives, only the last thing yielded can be an error |
| Reader.CollectStream | R/arrow-bridge.R:196-254 | Draining stops as soon as enough rows have been seen |
| Reader.LimitGivesTheFirstRows | R/arrow-bridge.R:224-253 | A start of all the rows the scan yields, as many as `limit` or as there are, pulling the fewest batches that reach them |
| Reader.RowsInPlace | R/arrow-bridge.R:218-232 | The rows of each batch come after those of the batches before it, and an error has none |
| Reader.FailsExactly | R/arrow-bridge.R:234-246 | Draining fails if and only if an error comes before enough rows have |
| Reader.NoLimitGivesEveryRow | R/arrow-bridge.R:212-216 | Without a limit every row comes, and the first error is the result |
| BlockOn.Session.BlockOn | src/rust/src/runtime.rs:180-215 | One future is resumed, never restarted; the wait ends with a value, an interrupt or the deadline, in that order of preference; the flag is cleared exactly when it ends as interrupted; a forked process is refused before anything is polled |
| BlockOn.SlicesFitTheCeiling | src/rust/src/runtime.rs:182-214 | With a ceiling of d milliseconds the wait takes at most d / 200 slices, rounded up |
| BlockOn.ValueBeatsBoth | src/rust/src/runtime.rs:195-198 | The first slice that is done gives its value, whatever the flag and the clock say |
| BlockOn.InterruptIsPrompt | src/rust/src/runtime.rs:200-202 | Ctrl-C ends the wait within the slice it comes in, unless that slice is done |
| BlockOn.InterruptedByCtrlC | src/rust/src/runtime.rs:200-202 | And nothing else interrupts it |
| BlockOn.GivesUpOnlyLate | src/rust/src/runtime.rs:204-213 | The wait is abandoned only past the whole ceiling, and never with an interrupt pending |
| BlockOn.EndsOnce | src/rust/src/runtime.rs:180-215 | A wait ends in one way |
| BlockOn.Session.Runtime | src/rust/src/runtime.rs:50-85 | The process that first asks owns the runtime; any other is refused |
| BlockOn.Session.TakeInterrupt | src/rust/src/runtime.rs:142-156 | Reads the flag and leaves it clear |
| Snapshots.AsOfIsCurrent | R/snapshots.R:90-161 | After every run of commits, rollbacks, branch commits and schema changes in time order, a read as of an instant gives the snapshot that was current then, and fails exactly when there was none |
| Snapshots.TargetExactly | R/snapshots.R:90-138 | What is taken for a time: one date-time, or one date as the start of its day of 24 hours; anything else is refused |
| Snapshots.LastInLogOrder | R/snapshots.R:156-160 | Whatever order the times are in: the last eligible entry in log order, and failure exactly without one |
| Snapshots.AsOfIsKnown | src/rust/src/table.rs:443-462 | What it gives is always a snapshot of the table |
| Snapshots.TheListCannotAnswer | src/rust/src/table.rs:443-456 | After a rollback the latest snapshot by its own time is not the current one |
| Snapshots.EarliestIs | R/snapshots.R:140-154 | The time a refusal names is the earliest in the log |
| Snapshots.DefaultReadsTheCurrentSnapshot | src/rust/src/table.rs:79-116 | A read without a snapshot plans with the schema of the snapshot a read as of now gives, and fails if and only if that one names a schema the metadata does not have |
| Snapshots.AlteringChangesExactly | src/rust/src/table.rs:85-115 | A schema change that writes nothing changes what a read plans with if and only if the read is of no snapshot or of one without a schema id, and the new schema is another, or the snapshot's own schema was missing and is the new one |
| Snapshots.AfterAlterations | src/rust/src/table.rs:85-115 | After any run of such changes a snapshot that names a schema is read with it, and any other with the last one set |
| Snapshots.KnownSchemasStay | src/rust/src/table.rs:85-115 | If every commit names a schema that is there, then after every run no read fails for a schema |
| Snapshots.IdsAreResolved | src/rust/src/table.rs:42-67 | A known id, written out, resolves to itself; so does the one a read as of a time gives |
| Snapshots.ResolvedExactly | src/rust/src/table.rs:42-67 | A text is the id of a snapshot if and only if, trimmed, it writes one of 64 bits that a snapshot has; the two refusals are told apart |
| Snapshots.OldestFirst | src/rust/src/table.rs:375-384 | The listing has the oldest first, then by sequence number, then by id |
| Snapshots.ListingIsStable | src/rust/src/table.rs:375-384 | With unique ids the listing is the same for every order of iteration, and sorted |
| Namespaces.Catalog.CreateNamespace | R/write.R:17-35 | The loop creates the missing parents in order, then the leaf |
| Namespaces.SuccessAddsWhatIsMissing | R/write.R:21-34 | Succeeds exactly when the leaf is new and nothing missing is refused; then exactly the missing parents and the leaf are added |
| Namespaces.RefusalLeavesParents | R/write.R:21-34 | A refusal is of the first missing namespace the catalog refuses; exactly the missing parents before it are then added |
| Namespaces.ExistingLeafFails | R/write.R:23-25 | Creating what exists fails, and adds nothing |
| Namespaces.EveryRunIsClosed | R/write.R:21-34 | After every run of calls, failed ones too, every parent of a namespace exists |
| Namespaces.NamespaceExactly | R/catalog.R:395-432 | A vector is a namespace if and only if no string of it is NA or empty and one has a character other than a dot; the refusals are told apart |
| Namespaces.VectorOfLevels | R/catalog.R:395-432 | A vector of levels is read as them, in order |
| Namespaces.VectorsTogether | R/catalog.R:395-432 | A longer vector is read as its parts one after another |
| Namespaces.NamespaceRoundTrip | R/catalog.R:395-432 | Levels read, joined with dots and read again are the same |
| Namespaces.IdentifierAgrees | R/utils.R:54-77 | A dotted table name is accepted exactly when what precedes its last level is a namespace, and has those levels |
| Namespaces.IdentifierNamespace | R/utils.R:54-77 | The namespace of an identifier, joined, is read as the same levels |
| Clip.ClipConvex | data-raw/logo.R:94-130 | The nested loops compute the clipping, edge by edge |
| Clip.ClippingIsInside | data-raw/logo.R:94-130 | Every vertex returned is on the inner side of every edge and in every half-plane that holds the subject; every subject vertex inside is kept |
| Clip.ClippingKeepsWhatIsInside | data-raw/logo.R:94-130 | Every point of the subject's boundary inside the clip polygon is on the boundary of the result, and in every half-plane that holds it |
| Chords.ConvexIsKept | data-raw/logo.R:94-130 | Of a convex subject, wound either way, every point on a chord and inside the clip polygon is on a chord of the result, and in every half-plane that holds the result |
| Chords.EdgeKeepsWinding | data-raw/logo.R:108-128 | What an edge leaves of a convex polygon is convex and wound the same way |
| Chords.HullIsNotKept | data-raw/logo.R:94-130 | A subject that is not convex, of whose hull a point inside the clip polygon is cut away |
| Clip.ClippingInsideChangesNothing | data-raw/logo.R:94-130 | A subject inside already is returned as it is |
| Clip.ClippingTwice | data-raw/logo.R:94-130 | Clipping twice is clipping once |
| Clip.OrientationIsRight | data-raw/logo.R:90-100 | For a convex polygon of either winding, the centroid test makes the inner side of every edge the polygon's own |
| Clip.ConvexClipsToItself | data-raw/logo.R:94-130 | Clipped to itself, a convex polygon is returned whole |
| Winding.ClippingKeepsWinding | data-raw/logo.R:94-130 | Whatever the subject, convex or not, crossing itself or not: the result winds about every point strictly inside the clip polygon exactly as often as the subject does, and about no point strictly outside an edge |
| Winding.EdgeKeepsWinding | data-raw/logo.R:108-128 | Each edge keeps how often any polygon winds about a point strictly on its inner side |
| Winding.TriangleWindsOnce | data-raw/logo.R:94-130 | The winding number used is 1 for a triangle about whatever is strictly left of its three sides |
| Clip.CrossingIsBetween | data-raw/logo.R:121-125 | A crossing is on the line, between the two vertices |

## Left out

* The composed scrubber: the second pass can change what the first would see, and only each pass is claimed.
* Catalog connections, HTTP, Glue, S3, Parquet and the commit itself: upstream; the append keeps the rows handed over and the snapshots.
* A stream that cannot be imported fails an append as one whose first batch cannot be read does; the two are one failure here.
* BlockOn.Session.BlockOn: with the ceiling turned off, it is stated for futures that are done, or interrupted, at some slice; of one that never is, nothing is claimed.
* OwnValues.AgreesExactly: leaves out an order between a text and a decimal, since how the texts of decimals are ordered is not modelled. A pair of classes R warns about, a UUID column, which R cannot compare, and an integer64 made of a decimal past 64 bits count as NA. That an integer64 truncates a decimal is how bit64 compares; another version of it might not.
* OwnSets.SetsAlikeExactly: leaves out a text column `%in%` dates, instants or integer64s, since which texts R reads as those is not modelled, and a list of several classes. `%in%` is equality with some value; match() on classed objects, which in some versions of R compares their texts, is not modelled.
* OwnFilters.PushedFilterKeepsOwnRows: for a whole filter the condition is sufficient; it is exact for one comparison and for one set.
* Translate.ColumnsAreNotLocals: an expression that looks variables up by a computed name, as get() does, is outside it.
* Names.Reference: top-level names only; upstream's index also resolves the dotted path of a nested field (`src/rust/src/predicate.rs:519-524`), which no scan can then plan.
* Names.ResolveSelect: no check for names that are empty or NA (`R/scan.R:176`).
* Winding.ClippingKeepsWinding: says nothing of a point on the line of an edge of the clip polygon and outside no edge; of the subject's boundary there `Clip.ClippingKeepsWhatIsInside` speaks.
* Wire.IsoUtcIsNearest: the calendar text of the whole second is a parameter, and the instant is an exact real.
* Clip.ClipConvex: points are pairs, where the source keeps two parallel vectors; floating-point rounding is not modelled.
* `rewrite_int64`, `normalise_timestamps`, `canonicalise_utc` and `type_label`: relabelling of columns and types, easy members.
* The order of names inside messages, and the messages themselves: a refusal carries the set of names or the name it is about.
* A panic while a reader is opened: reported as an error of opening.
* Snapshot expiry and the upstream checks on rollbacks: a rollback to an unknown snapshot is refused and leaves no entry.
* The parsing of `ICEBERGR_TIMEOUT_SECONDS` and of the worker count.
* External pointers, Arrow memory, the panic hook and other foreign calls.
* Credentials policy, printing methods, the spec-support table, build scripts and plots: text and configuration.

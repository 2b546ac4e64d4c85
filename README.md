# Laptop price preprocessor: the base-feature cleaner

This project models the cleaning step of the laptop-price `Preprocessor` in
`src/data_preprocessing.py`, and proves properties of it:

- **The constructor** sets the target column to `price` and leaves the fitted state unset.
  The fitted state is the numeric, categorical and fitted column lists, and an empty map of
  scaling parameters.
- **`_clean_and_extract_base_features(df)`** changes the caller's DataFrame in place and
  returns it. It does three things, in this order:
  - it lower-cases every column name;
  - it derives `ram_gb` from `ram` by removing every `"GB"` and converting the rest to an
    integer;
  - it derives `weight_kg` from `weight` by removing every `"kg"` and converting the rest to
    a float.

## Layout

- `wrappers.dfy`: `Option` and `Result`.
- `text.dfy` (module `Text`): the per-string helpers.
  - ASCII lower-casing (`str.lower`).
  - Removal of every occurrence of a literal (`str.replace(unit, '')`). Its partner is
    `Split`/`Join` (`str.split`, `str.join`).
- `numbers.dfy` (module `Numbers`): what `int()` and `float()` accept from a cell's text.
  Decimal values are kept as exact reals.
- `frames.dfy` (module `Frames`): a DataFrame as a header, one column per header entry and a
  row count.
  - `Lookup` is `df[name]`; `SetColumn` is `df[name] = col`.
  - The class `Table` is the caller's DataFrame object, which the cleaner changes in place.
- `preprocessing.dfy` (module `Preprocessing`):
  - the per-cell conversion, and the row loop pandas runs over a column (`ConvertRows`);
  - one line of the cleaner (`Extract`, `ExtractInto`);
  - the whole cleaner as a function of the table's value (`Clean`);
  - the class `Preprocessor` with its constructor and `CleanAndExtractBaseFeatures`.
- `cleaning_properties.dfy` (module `CleaningProperties`): what the cleaner promises, stated
  and proved about `Clean` and `ConvertCell`.

Errors are values of `Frames.Error`, one per exception the cleaner can raise:

- `KeyError` for a missing column;
- `AttributeError` when `.str` is applied to a duplicated or non-string column;
- `ValueError` for an invalid literal;
- `ValueError` from numpy when a missing value (NaN) is cast to an integer (`NonFiniteToInt`);
- `OverflowError` outside int64 (the C `long` of the platforms this model assumes).

`CleanAndExtractBaseFeatures` returns `Failure(e)` where the Python method raises.

### Behaviour of the code worth knowing

- **Units.** `str.replace` removes every occurrence of the unit literal, wherever it stands,
  not only a trailing suffix. So `"1GB6"` becomes `16` (`RamUnitRemovedAnywhere`).
- **When a missing column is noticed.** Nothing checks the header up front. `weight` is looked
  up only after `ram_gb` has been written (`CleanMissingWeight`).
- **Partial application.** The method changes the caller's table step by step and undoes
  nothing. A failure in the weight line leaves the lower-cased header and the new `ram_gb`
  column behind (`CleanNoRollback`). A failure in the ram line leaves the lower-cased header
  and nothing else (`Clean`, `CleanFirstBadRamCell`).

## Model

| member | source | states |
|---|---|---|
| Preprocessing.Preprocessor.constructor | src/data_preprocessing.py:10-15 | a fresh preprocessor has target `price`; its numeric, categorical and fitted column lists are unset; its scaling-parameter map is empty |
| Preprocessing.Preprocessor.CleanAndExtractBaseFeatures | src/data_preprocessing.py:17-27 | changes the caller's table into `Clean`'s frame; returns that same table object exactly when `Clean` reports no error; otherwise returns `Clean`'s error, with the table left part-way |
| Frames.Table.LowerColumns | src/data_preprocessing.py:19 | the loop renaming each column leaves the header lower-cased entry by entry, with rows and columns unchanged |
| Frames.Table.Assign | src/data_preprocessing.py:22-25 | `df[name] = col` on the table object makes its value `SetColumn` of the old value |
| Frames.Lookup | src/data_preprocessing.py:22-25 | `df[name]` is a Series exactly when one column has that name, and yields that column; a missing name gives `ColumnNotFound`; a repeated name gives `DuplicateColumn` |
| Frames.Positions | src/data_preprocessing.py:22-25 | the indexes holding a name, exactly and in increasing order |
| Frames.PositionsCount | src/data_preprocessing.py:22-25 | no position means the name is absent; one position means the name is unique there; otherwise no index holds it uniquely |
| Frames.SetColumn | src/data_preprocessing.py:22-25 | assignment keeps the rows and every column with another name; it overwrites the columns with that name, or appends the name when absent; afterwards every column with the name holds `col` |
| Frames.LookupAfterSet | src/data_preprocessing.py:22-25 | reading a name right after assigning it, when it named at most one column, gives the assigned column |
| Frames.LookupOtherAfterSet | src/data_preprocessing.py:22-25 | assigning one name does not change what a lookup of any other name returns |
| Frames.SetColumnUnchanged | src/data_preprocessing.py:22-25 | assigning to a name the values it already holds leaves the table as it was |
| Frames.GrowsTwice | src/data_preprocessing.py:22-25 | two assignments in a row keep the rows, grow the header by at most the two names, and change only columns with those names |
| Frames.GrowsKeepsOther | src/data_preprocessing.py:22-25 | a column with another name survives an assignment at the same position with the same cells |
| Text.Lower | src/data_preprocessing.py:19 | `str.lower` on a name keeps its length, leaves no ASCII upper-case letter, and changes only upper-case letters, each to the letter 32 code points later |
| Frames.LowerHeader | src/data_preprocessing.py:19 | `df.columns = df.columns.str.lower()` keeps every column and the row count, and keeps the number of header entries and the table's well-formedness |
| Text.RemoveAll | src/data_preprocessing.py:22-25 | `str.replace(unit, '')` never lengthens the text, and it leaves the length unchanged only when it leaves the text unchanged |
| Numbers.Strip | src/data_preprocessing.py:22-25 | the stripping `int()` and `float()` do never lengthens the text, and what is left neither starts nor ends with the white space they skip in ASCII text (the space and `\t \n \v \f \r`, not U+001C to U+001F) |
| Numbers.StripPadded | src/data_preprocessing.py:22-25 | stripping removes the surrounding white space and nothing else: white space, then text that neither starts nor ends with it, then white space gives back that text whole and in order |
| Numbers.LeadingSpacesOf | src/data_preprocessing.py:22-25 | the white space in front of text that does not start with white space is exactly what is skipped at the front |
| Numbers.TrailingSpacesOf | src/data_preprocessing.py:22-25 | the white space after text that does not end with white space is exactly what is skipped at the back |
| Numbers.ParseInt | src/data_preprocessing.py:22 | `int()` accepts only text that is not blank after stripping, and a negative value only from text whose stripped form starts with `-` |
| Numbers.DecimalValue | src/data_preprocessing.py:25 | an unsigned literal that has a value is non-empty, and its value is not negative |
| Numbers.DecimalOf | src/data_preprocessing.py:25 | the number `whole.fraction` is never negative |
| Numbers.ParseFloat | src/data_preprocessing.py:25 | `float()` accepts only text that is not blank after stripping, and a negative value only from text whose stripped form starts with `-` |
| Preprocessing.ConvertCell | src/data_preprocessing.py:22-25 | a non-string cell fails for `int` and becomes a missing value for `float`; a converted RAM cell is an int64 integer; a converted weight cell is a float exactly when the cell was a string; a string cell that fails reports the text left after removing the unit |
| Preprocessing.Collect | src/data_preprocessing.py:22-25 | a successful gathering has one value per row (the rest of its meaning is `CollectSpec`) |
| Preprocessing.ConvertColumn | src/data_preprocessing.py:22-25 | a column converts exactly when every row does, and then holds each row's conversion in place; otherwise the error is that of the first row that fails |
| Preprocessing.ConvertRows | src/data_preprocessing.py:22-25 | the row loop of `.astype` converts row by row and stops at the first failing row, with the same result as converting the whole column |
| Preprocessing.CollectSpec | src/data_preprocessing.py:22-25 | a column conversion succeeds exactly when every row does and then keeps each row's value in place; otherwise it reports the first failing row's error |
| Preprocessing.Extract | src/data_preprocessing.py:22-25 | one derivation line succeeds exactly when its source column exists once, `.str` accepts it, and every row converts; on success the target column holds each row's conversion and no other column changes; on failure the error is the lookup's (`KeyError` or duplicate), else `NotAStringColumn` when `.str` refuses the column, else the error of the first row that does not convert |
| Preprocessing.ExtractInto | src/data_preprocessing.py:22-25 | running one line on the table object raises `Extract`'s error and leaves the table alone, or replaces the table's value with `Extract`'s result |
| Preprocessing.Clean | src/data_preprocessing.py:17-27 | whatever the outcome, the rows stay, header entries are lower-cased in place, only `ram_gb`/`weight_kg` are appended, and every other column keeps its cells; the call succeeds exactly when both lines can run on the lower-cased table; when the ram line cannot run, the table is exactly the lower-cased one and the error is that line's; when only the weight line cannot, the table is exactly what the ram line left and the error is the weight line's |
| CleaningProperties.RamCellRoundTrip | src/data_preprocessing.py:21-22 | `'<n>GB'` becomes the integer `n` for every `n` in int64 |
| CleaningProperties.RamCellOverflow | src/data_preprocessing.py:22 | an integer beyond int64 is an overflow error, not a wrapped value |
| CleaningProperties.WeightCellRoundTrip | src/data_preprocessing.py:24-25 | `'<a>.<b>kg'` becomes the decimal number `a.b` |
| CleaningProperties.WeightCellTrailingZero | src/data_preprocessing.py:24-25 | `'a.b0kg'` and `'a.bkg'` convert to the same weight |
| CleaningProperties.WeightCellWhole | src/data_preprocessing.py:24-25 | `'<n>kg'` becomes the number `n` |
| CleaningProperties.WeightCellExample | src/data_preprocessing.py:24-25 | `'2.5kg'` becomes 2.5 |
| CleaningProperties.CellWithLetterFails | src/data_preprocessing.py:22-25 | in the modelled decimal grammar, a letter left after removing the unit makes the cell fail with that text; it is never read as 0 |
| CleaningProperties.RamCellPadded | src/data_preprocessing.py:21-22 | `w1 + str(n) + w2 + 'GB'` becomes the integer `n` for ASCII white space `w1`, `w2` and every `n` in int64 |
| CleaningProperties.RamCellWithSpace | src/data_preprocessing.py:21-22 | `'8 GB'` becomes 8 |
| CleaningProperties.RamCellSeparatorFails | src/data_preprocessing.py:22 | `'\x1c8GB'` is refused with the text `'\x1c8'`: U+001C is not white space to `int()` |
| CleaningProperties.RamUnitRemovedAnywhere | src/data_preprocessing.py:22 | the unit is removed wherever it occurs: `'1GB6'` becomes 16 |
| CleaningProperties.RamUnitIsCaseSensitive | src/data_preprocessing.py:22 | `'8gb'` keeps its letters and fails |
| CleaningProperties.UnitAloneFails | src/data_preprocessing.py:22-25 | `''`, `'GB'` and `'kg'` leave empty text, and the conversion fails rather than giving 0 |
| CleaningProperties.LoweredHeaderIsLower | src/data_preprocessing.py:19-25 | lower-cased names followed by the two derived names are all lower case |
| CleaningProperties.CleanHeaderIsLower | src/data_preprocessing.py:19-25 | every header entry of the table left behind is lower case, whatever the outcome |
| CleaningProperties.CleanKeepsLowerHeader | src/data_preprocessing.py:19 | a header that is already lower case keeps its names |
| CleaningProperties.LowerHeaderOfLower | src/data_preprocessing.py:19 | lower-casing an all-lower-case header changes nothing |
| CleaningProperties.CleanIgnoresHeaderCase | src/data_preprocessing.py:19-25 | two tables whose headers differ only in ASCII case (`Ram`, `RAM`) give exactly the same outcome |
| CleaningProperties.RamGbSurvivesWeightLine | src/data_preprocessing.py:22-25 | whatever the weight line does, the `ram_gb` columns left are those the ram line wrote |
| CleaningProperties.CleanRamGb | src/data_preprocessing.py:21-22 | once the ram line can run, every `ram_gb` cell is the conversion of the same row of the one column whose name lower-cases to `ram` |
| CleaningProperties.WeightLookupAfterRam | src/data_preprocessing.py:22-25 | the weight line finds the same column whether or not `ram_gb` was added |
| CleaningProperties.CleanSuccessFrame | src/data_preprocessing.py:17-27 | on success the table is exactly the weight line run on what the ram line left |
| CleaningProperties.ExtractCells | src/data_preprocessing.py:22-25 | a successful line writes each row's conversion of its source column into every column with the target name |
| CleaningProperties.CleanWeightKg | src/data_preprocessing.py:24-25 | on success, every `weight_kg` cell is the conversion of the same row of the one column whose name lower-cases to `weight` |
| CleaningProperties.CleanNoRollback | src/data_preprocessing.py:19-25 | when only the weight line fails, the call raises the weight line's error and the table keeps the lower-cased header and the written `ram_gb` column |
| CleaningProperties.NotFoundAfterLowering | src/data_preprocessing.py:19-25 | a name that no header entry lower-cases to is not found after lower-casing |
| CleaningProperties.CleanMissingRam | src/data_preprocessing.py:19-22 | with no column lower-casing to `ram`, the call raises `KeyError('ram')` with only the header lower-cased |
| CleaningProperties.CleanFirstBadRamCell | src/data_preprocessing.py:19-22 | when row `k` is the first `ram` cell that does not convert, the call raises that cell's error and leaves the table exactly as lower-casing made it |
| CleaningProperties.CleanFirstBadWeightCell | src/data_preprocessing.py:22-25 | when row `k` is the first `weight` cell that does not convert, the call raises that cell's error and leaves the table as the ram line left it |
| CleaningProperties.CleanWeightNotString | src/data_preprocessing.py:22-25 | a `weight` column `.str` refuses raises the `.str` error, with the table as the ram line left it |
| CleaningProperties.CleanStopsAtWeight | src/data_preprocessing.py:22-25 | after a successful ram line, a failing `weight` lookup is the error raised, and the table is what the ram line left |
| CleaningProperties.CleanMissingWeight | src/data_preprocessing.py:22-25 | with no column lower-casing to `weight`, the call raises `KeyError('weight')` after `ram_gb` was written |
| CleaningProperties.ExtractRewritesSame | src/data_preprocessing.py:22-25 | a line whose target already holds the conversion of its source rewrites the table to itself |
| CleaningProperties.CleanIdempotent | src/data_preprocessing.py:17-27 | cleaning the table a successful call produced succeeds again and changes nothing |
| Text.LowerIsLower | src/data_preprocessing.py:19 | lower-casing keeps the length, leaves no upper-case letter, and keeps every other character |
| Text.LowerIdempotent | src/data_preprocessing.py:19 | lower-casing twice is lower-casing once |
| Text.LowerFixedIff | src/data_preprocessing.py:19 | lower-casing leaves a name unchanged exactly when it has no upper-case letter |
| Text.RamHeaderVariants | src/data_preprocessing.py:19-22 | `Ram`, `RAM` and `rAm` all lower-case to `ram`, and none of them clashes with `ram_gb` |
| Text.JoinSplit | src/data_preprocessing.py:22-25 | splitting at the unit and joining with it again gives back the text |
| Text.JoinGlueFirst | src/data_preprocessing.py:22-25 | gluing text onto the first piece glues it onto the joined text |
| Text.RemoveAllIsConcatSplit | src/data_preprocessing.py:22-25 | removing the unit is splitting at it and concatenating the pieces |
| Text.SplitHeadIsPrefix | src/data_preprocessing.py:22-25 | the first piece of a split is a prefix of the text |
| Text.SplitPiecesAreFree | src/data_preprocessing.py:22-25 | no piece of a split contains the unit |
| Text.RemoveAllUnchangedIff | src/data_preprocessing.py:22-25 | removing the unit leaves the text unchanged exactly when the unit does not occur in it |
| Text.RemoveAllSkipsPrefix | src/data_preprocessing.py:22-25 | a prefix free of the unit's first character passes through untouched |
| Text.RemoveTrailing | src/data_preprocessing.py:22-25 | a unit at the end of text free of the unit's first character is all the removal takes away |
| Text.RemoveAllIsSinglePass | src/data_preprocessing.py:22 | removal is one left-to-right pass: `'GGBB'` leaves `'GB'`, which still contains the unit |
| Text.RemoveAllIsCaseSensitive | src/data_preprocessing.py:22 | `'gb'` is not removed when the unit is `'GB'` |
| Numbers.StripKeepsNonSpace | src/data_preprocessing.py:22-25 | every character that is not white space is still in the stripped text (`StripPadded` gives its exact place) |
| Numbers.ParseIntNatText | src/data_preprocessing.py:22 | `int(str(n)) == n` |
| Numbers.ParseIntPadded | src/data_preprocessing.py:22 | `int(w1 + str(n) + w2) == n` for any ASCII white space `w1`, `w2` |
| Numbers.ParseIntNegative | src/data_preprocessing.py:22 | `int('-' + str(n)) == -n` |
| Numbers.ParseFloatExtendsParseInt | src/data_preprocessing.py:25 | `float()` accepts every text `int()` accepts, with the same value |
| Numbers.DecimalValueOf | src/data_preprocessing.py:25 | an unsigned literal `a.b` has the value `a.b` |
| Numbers.ParseFloatPlain | src/data_preprocessing.py:25 | unsigned, unpadded text is read as its decimal value |
| Numbers.ParseFloatDecimal | src/data_preprocessing.py:25 | `float(a + '.' + b)` is the number `a.b` for digit strings not both empty |
| Numbers.DecimalOfTrailingZero | src/data_preprocessing.py:25 | a trailing zero after the point does not change a decimal's value |
| Numbers.DecimalValueRejectsLetter | src/data_preprocessing.py:25 | in the modelled decimal grammar, an unsigned literal containing a letter has no value |
| Numbers.ParseRefusesSeparator | src/data_preprocessing.py:22-25 | neither `int()` nor `float()` skips U+001C: `'\x1c8'` is refused by both |
| Numbers.ParseRejectsLetter | src/data_preprocessing.py:22-25 | text containing a letter is not an `int()` literal, nor a float literal of the modelled decimal grammar |

## Left out

- Numbers.Int64Min and Numbers.Int64Max: `astype(int)` converts to the platform's C `long`. That is int64 on Linux and macOS, and with NumPy 2 everywhere. On Windows with NumPy older than 2 it is int32, so values beyond 32 bits overflow there; the model checks only the int64 range.
- Python's `float` is IEEE binary64. The model keeps the exact decimal value as a `real`, with no rounding.
- Numbers.ParseFloat: accepts only white space, an optional sign, ASCII digits and at most one point. Underscores, exponents, `inf`/`nan` and non-ASCII digits or spaces, which `float()` also accepts, are not modelled.
- CleaningProperties.CellWithLetterFails: holds for the modelled decimal grammar, not for Python's `float()`. Weight cells such as `'1e1kg'` (10.0), `'infkg'` (inf) and `'nankg'` (NaN) are read as numbers by Python, where the model refuses them.
- Numbers.ParseRejectsLetter: its `int()` half is Python's behaviour; its float half holds for the modelled decimal grammar only, since `float()` reads `'1e1'`, `'inf'` and `'nan'`.
- Numbers.ParseInt: accepts only white space, an optional sign and ASCII digits. Underscores, non-ASCII digits and non-ASCII white space (U+00A0, U+0085, U+3000, …), which `int()` also accepts, are not modelled; so the ram cell `'8\xa0GB'`, which Python reads as 8, is refused here.
- Text.Lower: lower-cases ASCII letters only, not full Unicode case mapping.
- pandas dtype inference is reduced to one rule of the model's own (`Preprocessing.StrRefused`). `.str` refuses a non-empty column that holds no string at all, accepts every other column, and turns the non-string cells of a mixed column into missing values. pandas departs from this rule in two places: it accepts an all-missing `object` column, which the model refuses, and it refuses a zero-row numeric column, which the model accepts.
- Column labels are strings only. Non-string labels are not modelled: the integer labels of a header-less CSV make `df.columns.str` raise `AttributeError` at line 19, and `.str.lower()` turns the non-string labels of a mixed header into NaN.
- Index alignment, object identity of column arrays, and copy-on-write are not modelled.
- Duplicate column names are modelled two ways:
  - reading a repeated name is an error (`DuplicateColumn`);
  - assigning to a repeated name overwrites every column with that name.
  Beyond that, pandas' handling of duplicate headers is not modelled.
- The empty row count: the model accepts every zero-row column, because a column's dtype is not modelled. pandas accepts a zero-row `object` column and refuses a zero-row numeric one.
- Preprocessing.Preprocessor: the value type of `scaling_params` is a type parameter. Nothing in the modelled code fills the map.
- The fit/transform encoder, scaling, one-hot expansion and the other field parsers are not part of this model. They have no implementation in `src/data_preprocessing.py`.
- `src/train_model.py` is not part of this model.
- The unused imports (`os`, `re`, `numpy`) are not part of this model.

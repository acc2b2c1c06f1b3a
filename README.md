# Shipwreck registry record normaliser, in Dafny

The converter in `parse_mj_rekisteri/parse_mj_rekisteri.py` turns the
semicolon-separated export of the Finnish Heritage Agency's wreck register
into JSON. After the CSV step has written one JSON object per wreck, keyed by
the 18 export columns, `modify_content` rewrites every object in place:

- the empty text and the register's "not specified" text (`ei määritelty`)
  become `null`;
- `tuhoutunut` ("destroyed") holding exactly `Ei` becomes `false`;
- `vedenalainen` ("underwater") becomes `true` for `k`/`K` and `false` for
  any other text, including the two "no value" texts;
- `mj_id` (the register id) becomes an integer;
- `longitude`, `latitude`, `zala` and `zylä` (coordinates and depths) become
  floats after every decimal comma is turned into a point.

Any conversion that Python refuses stops the whole call with an exception.

The model has three files:

- `wrappers.dfy`: `Option` and `Result`.
- `py_text.dfy` (module `PyText`): the Python string built-ins the rules
  call. These are `str.lower()` on ASCII letters, `str.replace` of one
  character, `int()` on a text (optional sign, then decimal digits; leading
  zeros allowed) and the syntax `float()` accepts. That syntax is an optional
  sign, then either a decimal literal with an optional exponent or one of
  `inf`, `infinity` and `nan` in any case.
- `mj_rekisteri.dfy` (module `ParseMjRekisteri`): the column tables, the
  per-column rules, the record and list specifications, and the imperative
  `modify_content` over an `array` of records.

Each record is a `map<string, Value>`. A float is the value `Dec(t)`, where
`t` is the point-normalised text that `float()` parsed. An exception is a
`Raised(row, key, kind)` value naming the row index, the key and the Python
exception class (`ValueError`, `TypeError` or `AttributeError`).

The specification has two levels. `NormalizeValue(key, value)` gives the
value a key ends with from the key and its ORIGINAL value alone.
`NormalizeContent` lifts it to a list: it returns either every row
converted, in the same order, or the index of the first failing row.
`RewriteField` runs the source's five `if` statements in order and is proved
equal to that table. This covers the null the sentinel rule writes and that
the `vedenalainen` rule overwrites. It also covers the sentinel in `mj_id`
or a float column, which raises instead of staying null.

The to-do list in the docstring at lines 107-127 names further conversions:
dropping unused fields, material and type from `alatyyppi`, reprojection of
the coordinates, code tables and ISO 8601 dates. The code implements none of
them, so the model follows the code.

## Model

| member | source | states |
|---|---|---|
| `PyText.LowerIsK` | parse_mj_rekisteri/parse_mj_rekisteri.py:52 | `value.lower() == 'k'` holds exactly for the texts `k` and `K` |
| `PyText.Lower` | parse_mj_rekisteri/parse_mj_rekisteri.py:52 | `str.lower()` on ASCII: it keeps the length, lowers each letter `A`-`Z` and keeps every other character |
| `PyText.ParseInt` | parse_mj_rekisteri/parse_mj_rekisteri.py:58 | `int()` on a text: it succeeds exactly on an optional sign followed by decimal digits, and the result's sign follows the sign character |
| `PyText.IsFloatLiteral` | parse_mj_rekisteri/parse_mj_rekisteri.py:61 | the texts `float()` accepts: an optional sign, then digits with at most one point and an optional exponent, or `inf`, `infinity` or `nan` in any case; the empty text is never one |
| `PyText.ReplaceChar` | parse_mj_rekisteri/parse_mj_rekisteri.py:61 | `replace(',', '.')` keeps the length, turns every comma into a point, leaves every other character, and leaves no comma behind |
| `PyText.ParseFormatInt` | parse_mj_rekisteri/parse_mj_rekisteri.py:58 | `int()` reads back every integer that `str()` writes |
| `PyText.LetterFirstIsNotNumber` | parse_mj_rekisteri/parse_mj_rekisteri.py:57-61 | neither `int()` nor `float()` accepts the empty text or a text starting with `e`, so both sentinels raise ValueError |
| `PyText.DecimalCommaAccepted` | parse_mj_rekisteri/parse_mj_rekisteri.py:60-61 | a decimal written with a comma becomes, after the replacement, the same digits with a point, and `float()` accepts that text |
| `ParseMjRekisteri.SpecialColumnsAreFields` | parse_mj_rekisteri/parse_mj_rekisteri.py:3-38 | the four float columns, `mj_id`, `tuhoutunut` and `vedenalainen` are all export columns, and none of the named columns is a float column |
| `ParseMjRekisteri.ColumnOf` | parse_mj_rekisteri/parse_mj_rekisteri.py:48-61 | the column kinds are decided by the exact key names and the float-column table, and no key belongs to two kinds |
| `ParseMjRekisteri.Blank` | parse_mj_rekisteri/parse_mj_rekisteri.py:45-46 | the first rewrite of every key gives null exactly for null and the two sentinel texts, and keeps every other value |
| `ParseMjRekisteri.UnderwaterRule` | parse_mj_rekisteri/parse_mj_rekisteri.py:51-55 | a text becomes `true` iff it is `k` or `K` and `false` otherwise; a null raises AttributeError |
| `ParseMjRekisteri.IdRule` | parse_mj_rekisteri/parse_mj_rekisteri.py:57-58 | succeeds iff the value is a text that is an integer numeral, with an integer result; a sentinel raises ValueError |
| `ParseMjRekisteri.FloatRule` | parse_mj_rekisteri/parse_mj_rekisteri.py:60-61 | a text converts iff `float()` accepts it once every comma is a point; the float's literal is then the text with each comma turned into a point and every other character kept; a sentinel raises ValueError |
| `ParseMjRekisteri.PlainRule` | parse_mj_rekisteri/parse_mj_rekisteri.py:45-49 | a sentinel becomes null, `Ei` in `tuhoutunut` becomes `false`, and no other value changes |
| `ParseMjRekisteri.PlainColumnRule` | parse_mj_rekisteri/parse_mj_rekisteri.py:45-46 | in an ordinary column a sentinel becomes null and any other value is kept |
| `ParseMjRekisteri.DestroyedRule` | parse_mj_rekisteri/parse_mj_rekisteri.py:45-49 | `tuhoutunut`: exactly `Ei` becomes `false`, a sentinel becomes null, any other text is kept |
| `ParseMjRekisteri.UnderwaterIsBoolean` | parse_mj_rekisteri/parse_mj_rekisteri.py:45-55 | `vedenalainen` succeeds iff it holds text and then ends as a boolean; a sentinel ends as `false`, not null |
| `ParseMjRekisteri.IdRoundTrip` | parse_mj_rekisteri/parse_mj_rekisteri.py:57-58 | an id written as decimal text becomes that integer |
| `ParseMjRekisteri.SentinelIsErrorInNumericColumns` | parse_mj_rekisteri/parse_mj_rekisteri.py:45-61 | in `mj_id` and the float columns a sentinel raises ValueError; it never stays null |
| `ParseMjRekisteri.MeasureWithComma` | parse_mj_rekisteri/parse_mj_rekisteri.py:60-61 | a coordinate or depth `a,b` becomes the float `a.b` |
| `ParseMjRekisteri.FloatRuleIdempotent` | parse_mj_rekisteri/parse_mj_rekisteri.py:60-61 | a converted coordinate or depth, written back as its point-normalised text, converts to the same float |
| `ParseMjRekisteri.NormalizeValue` | parse_mj_rekisteri/parse_mj_rekisteri.py:42-61 | the value a key ends with is its column's rule applied to its original value alone; only `vedenalainen`, `mj_id` and the float columns can raise |
| `ParseMjRekisteri.NormalizeRow` | parse_mj_rekisteri/parse_mj_rekisteri.py:41-61 | a converted record keeps exactly its keys, and each key holds the conversion of its original value |
| `ParseMjRekisteri.NormalizeContent` | parse_mj_rekisteri/parse_mj_rekisteri.py:40-62 | the list converts iff no row fails; the result is then each row converted, with the same length and order; otherwise the failure names the first failing row |
| `ParseMjRekisteri.RowSucceedsIff` | parse_mj_rekisteri/parse_mj_rekisteri.py:41-61 | a record converts iff `vedenalainen` is text, `mj_id` is an integer numeral and every float column's comma-normalised text is a float literal |
| `ParseMjRekisteri.NormalizedRowTypes` | parse_mj_rekisteri/parse_mj_rekisteri.py:41-61 | in a converted record `mj_id` is an integer, `vedenalainen` a boolean and each float column a float, and no column holds a sentinel |
| `ParseMjRekisteri.NormalizeContentAppend` | parse_mj_rekisteri/parse_mj_rekisteri.py:40-62 | converting `a + b` succeeds iff both halves do, gives the concatenation, and reports the first failing row of the whole list; this is the all-or-nothing failure |
| `ParseMjRekisteri.CellDependsOnlyOnOriginal` | parse_mj_rekisteri/parse_mj_rekisteri.py:41-42 | the converted value under a key depends only on the key and its original value, not on other keys or other rows |
| `ParseMjRekisteri.ToBoolean` | parse_mj_rekisteri/parse_mj_rekisteri.py:51-55 | the `lower()` test gives exactly the `vedenalainen` rule, including the AttributeError on null |
| `ParseMjRekisteri.ToInteger` | parse_mj_rekisteri/parse_mj_rekisteri.py:57-58 | `int(value)` gives exactly the `mj_id` rule: TypeError on null, ValueError on a non-numeral |
| `ParseMjRekisteri.ToFloat` | parse_mj_rekisteri/parse_mj_rekisteri.py:60-61 | `float(value.replace(',', '.'))` gives exactly the float-column rule: AttributeError on null, ValueError on a non-literal |
| `ParseMjRekisteri.RewriteField` | parse_mj_rekisteri/parse_mj_rekisteri.py:42-61 | the five rules, run in source order on the captured original value, leave the key holding its conversion and change no other key; on an exception the key holds the sentinel rule's write |
| `ParseMjRekisteri.RewriteRow` | parse_mj_rekisteri/parse_mj_rekisteri.py:41-61 | the key loop keeps the key set; it succeeds iff the record does not fail and then gives the converted record; on failure it names a failing key, and every other key holds either its original or its converted value |
| `ParseMjRekisteri.ModifyContent` | parse_mj_rekisteri/parse_mj_rekisteri.py:32-62 | the call succeeds iff the list converts and then returns the same array holding the converted list; on an exception it names the first failing row and a failing key, with earlier rows converted, later rows untouched and the failing row partly rewritten |

## Left out

- `csv_to_json`, `parse_json` and `main` (lines 73-147) are file I/O, JSON encoding and argument handling, and are not part of this model.
- `ParseMjRekisteri.ModifyContent`: requires every value to be text or null. That is what `json.load` returns for a file the CSV step wrote. JSON numbers, booleans and the list that `csv.DictReader` stores for an over-long row are not modelled.
- `ParseMjRekisteri.RewriteRow` and `ParseMjRekisteri.ModifyContent`: the key loop in `RewriteRow` does not follow Python's dict order, which is insertion order. Keys are visited in any order. On success the result is the same for every order. On failure the model names some failing key of the first failing row, not necessarily the first in insertion order.
- `ParseMjRekisteri.RewriteRow`: the key loop edits a copy of the record, and `ModifyContent` writes it back into the array when the loop ends, whether it succeeded or failed. Python writes each key into the shared dict at once. The two end in the same state. Aliasing (one dict appearing twice in the list) is not modelled; `json.load` never produces it.
- `PyText.IsFloatLiteral`: `float()` also accepts surrounding whitespace, underscores between digits and non-ASCII decimal digits (such as Arabic-Indic digits). The model rejects all three. The IEEE value, rounding and overflow are not modelled: a float is the literal text it was parsed from.
- `PyText.ParseInt`: `int()` also accepts surrounding whitespace, underscores between digits and non-ASCII decimal digits. The model rejects them.
- `ParseMjRekisteri.IdRule`, `ParseMjRekisteri.IdRoundTrip` and `PyText.ParseInt`: the model accepts a numeral of any length. Recent CPython versions refuse a decimal text longer than 4300 digits with ValueError. That limit is not modelled, because it depends on the interpreter version and on `sys.set_int_max_str_digits`.
- `PyText.Lower`: only ASCII letters are lowered. Python also lowers, for example, the Kelvin sign to `k`, so `vedenalainen` holding that sign would become `true` in Python and `false` here.
- The to-do items at lines 107-127 (field removal, material/type from `alatyyppi`, ETRS-TM35FIN to WGS84 reprojection, code tables, ISO 8601 dates, English field names) have no code, so there is nothing to model.

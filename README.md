# Especie: a verified model of the species CSV store

The class `asistentepa.Especie` keeps plant species in the CSV file
`localDB/especies.csv`. The first line is a header and every other non-blank
line is one species. The key is `nombreCientifico`, compared ignoring case.
Every operation re-reads the file. `registrar` appends one row. `actualizar`
and `eliminar` rewrite the whole file through `escribirTodo`.

This project models that store in Dafny, in five modules:

- `Wrappers`: `Option`, `Result` and `Outcome`. An exception the store throws
  on purpose becomes a `StoreError` value.
- `Text`: the parts of `java.lang.String` and `BufferedReader` the store
  relies on:
  - `trim` (strip chars up to U+0020);
  - `equalsIgnoreCase` as an ASCII case fold;
  - how `readLine` cuts written text into lines.
- `Numbers`:
  - `Integer.parseInt` and `String.valueOf(int)` on 32-bit `int`;
  - the store's lenient `parseInt`, where any failure is 0;
  - `double` columns carried as the decimal literal text they are written
    with.
- `EspecieCsv`: the record, the quoting `q`, the writer `toCsvLine`, the
  hand-written splitter `parseCsvLine` (array doubling included) and
  `fromColumns`.
- `EspecieStore`: the file as a `Store` object whose fields say whether the
  file exists and which lines `readLine` returns. Its methods are the store's
  operations, and the read, search, update, filter and write loops are
  methods over arrays, as in the Java.

Each method is proved against specification functions:

- `DataLines`: which lines are rows.
- `DecodeAll`: what `leerTodos` returns.
- `FirstMatch`: the record `buscar` finds.
- `Survivors`: what `eliminar` keeps.
- `Render`: what `escribirTodo` writes.

Lemmas then relate these functions to each other. The two central results
are:

- the round trip of one row: reading back what `toCsvLine` writes gives the
  record back;
- the round trip of the whole file: `leerTodos` after `escribirTodo` gives
  the records back in order.

Further lemmas cover what `registrar`, `actualizar` and `eliminar` leave
behind.

The key comparisons keep the code's asymmetries:

- `buscar` and `eliminar` trim the key.
- `actualizar` compares the incoming key untrimmed.
- `registrar` checks for a duplicate with the trimmed key but writes the key
  as given.

`RegistrarAdmitsPaddedDuplicate` proves the consequence: the same record
with a blank-padded key can be registered twice.

Deleting a key that no record has is meant to leave the file as it was.
`EliminarAbsentKeyKeepsFile` proves this for every file the store writes
itself. A file edited by hand can hold blank lines among its rows.
`leerTodos` skips them and `escribirTodo` does not write them back, so even
such a delete rewrites that file without them. `EliminarDropsBlankLines` and
`EliminarBlankLineExample` prove this.

The header row holds the field names as the code declares them,
`nombreCientifico,...,precioVenta`. Two lenient behaviours of the code are
kept:

- A row with more than 8 columns is accepted and the extra columns are
  ignored.
- A numeric column that does not parse is read as 0. The row is not rejected.

`leerTodos` decodes each row with `fromColumns(parseCsvLine(line))`. The read
loop `ReadRows` is proved for any row decoder. `LeerTodos` passes it
`DecodeLine`, and `DecodeRow` shows that the method `ParseCsvLine` followed
by `FromColumns` computes exactly `DecodeLine`.

## Model

| member | source | states |
|---|---|---|
| `Text.TrimFacts` | AsistentePA/src/asistentepa/Especie.java:72 | `trim` returns the empty string exactly when every char is at most U+0020; otherwise the result starts and ends with a char above U+0020 |
| `Text.TrimIsSlice` | AsistentePA/src/asistentepa/Especie.java:88 | the trimmed key is the slice of the key between a blank prefix and a blank suffix, so never longer than the key and equal to it when as long |
| `Text.LinesOfUnbroken` | AsistentePA/src/asistentepa/Especie.java:51-53 | a row without line breaks, followed by `newLine`, is read back by `readLine` as exactly that one line |
| `Text.LinesOfAreUnbroken` | AsistentePA/src/asistentepa/Especie.java:64-67 | whatever is written, `readLine` returns at least one line, and no line it returns holds a line break |
| `Numbers.DigitsRoundTrip` | AsistentePA/src/asistentepa/Especie.java:224 | the decimal digits written for a natural number are read back as that number |
| `Numbers.ParseIntOfFormatInt` | AsistentePA/src/asistentepa/Especie.java:256-262 | `parseInt(String.valueOf(n)) == n` for every 32-bit `int`, negatives included |
| `Numbers.ParseIntWithoutDigits` | AsistentePA/src/asistentepa/Especie.java:256-262 | a column without any digit is read as 0 rather than rejected |
| `Numbers.ParseIntOverflow` | AsistentePA/src/asistentepa/Especie.java:256-262 | a number above 2147483647 overflows `Integer.parseInt` and is read as 0 |
| `Numbers.LiteralChars` | AsistentePA/src/asistentepa/Especie.java:225-228 | a `double` column's text is never empty and holds only digits, signs, '.', 'e' and 'E', so never a comma or a quote |
| `Numbers.ParseDoubleOfLiteral` | AsistentePA/src/asistentepa/Especie.java:264-270 | `parseDouble` of a column's own text gives that value back |
| `EspecieCsv.Grow` | AsistentePA/src/asistentepa/Especie.java:301-307 | the doubled array is fresh, twice as long, and keeps every earlier column in place |
| `EspecieCsv.ParseCsvLine` | AsistentePA/src/asistentepa/Especie.java:271-332 | the loop returns a newly allocated array holding exactly the columns of the reference splitter `Split`, one more column than there are commas outside quotes |
| `EspecieCsv.SplitLength` | AsistentePA/src/asistentepa/Especie.java:271-332 | a line splits into (commas preceded by an even number of quotes) + 1 columns, never fewer than one |
| `EspecieCsv.ScanEscaped` | AsistentePA/src/asistentepa/Especie.java:279-294 | inside quotes, a doubled quote reads as one literal quote and a comma is kept as data, so an escaped field reads back as its text |
| `EspecieCsv.SplitQuoted` | AsistentePA/src/asistentepa/Especie.java:232-238 | a field quoted by `q` splits back into the single column holding the original string, with `null` read as "" |
| `EspecieCsv.SplitToCsvLine` | AsistentePA/src/asistentepa/Especie.java:219-230 | the row `toCsvLine` writes splits back into exactly 8 columns: the three strings, the cycle as written and the four `double` texts |
| `EspecieCsv.FromColumns` | AsistentePA/src/asistentepa/Especie.java:240-254 | a row is rejected exactly when it has fewer than 8 columns, and the error carries the number received |
| `EspecieCsv.FromColumnsIgnoresExtra` | AsistentePA/src/asistentepa/Especie.java:240-254 | columns after the eighth change nothing in the record read |
| `EspecieCsv.NonNumericCycleIsZero` | AsistentePA/src/asistentepa/Especie.java:248 | a row whose cycle column has no digit is accepted with cycle 0 |
| `EspecieCsv.DecodeToCsvLine` | AsistentePA/src/asistentepa/Especie.java:219-254 | reading back the row written for a record gives the record, with `null` strings as "" |
| `EspecieCsv.ScanUnbroken` | AsistentePA/src/asistentepa/Especie.java:271-332 | no column split from a line without line breaks contains one |
| `EspecieStore.ValidarClave` | AsistentePA/src/asistentepa/Especie.java:140-147 | the record passes exactly when it is present and its key is non-null and not blank; otherwise the error is "null record" or "missing key", in that order |
| `EspecieStore.FirstMatch` | AsistentePA/src/asistentepa/Especie.java:90-96 | the position found is the first whose key equals the given key ignoring case; nothing is found exactly when no record matches |
| `EspecieStore.Survivors` | AsistentePA/src/asistentepa/Especie.java:123-136 | the kept records are exactly those with a non-null key that does not match, and nothing else |
| `EspecieStore.Store.EnsureFileExists` | AsistentePA/src/asistentepa/Especie.java:149-169 | a missing or empty file becomes the header line alone; a non-empty file is left unchanged |
| `EspecieStore.Store.ContarFilasDatos` | AsistentePA/src/asistentepa/Especie.java:171-190 | the count is the number of lines after the first that are not blank after trimming |
| `EspecieStore.Store.LeerTodos` | AsistentePA/src/asistentepa/Especie.java:59-82 | provisions the file, then returns a fresh array holding the decoded rows in file order, or the error of the first row with too few columns |
| `EspecieStore.ReadRows` | AsistentePA/src/asistentepa/Especie.java:62-77 | the read loop skips the first line and blank lines, fills the array sized by the count exactly, and returns the same records or error as the specification `DecodeEach` of the data lines |
| `EspecieStore.DecodeRow` | AsistentePA/src/asistentepa/Especie.java:75-76 | `fromColumns(parseCsvLine(line))` computed by the methods equals the decoder `DecodeLine` that `leerTodos` uses |
| `EspecieStore.Store.Buscar` | AsistentePA/src/asistentepa/Especie.java:84-97 | a null or blank key returns nothing and leaves the file untouched; otherwise the first record whose key equals the trimmed key ignoring case, nothing if none, or the read error |
| `EspecieStore.FirstMatching` | AsistentePA/src/asistentepa/Especie.java:90-96 | the search loop returns the first matching record of the array, as `FirstMatch` specifies |
| `EspecieStore.Store.Registrar` | AsistentePA/src/asistentepa/Especie.java:45-57 | a bad record fails before the file is touched; a key found by `buscar` (trimmed, any casing) fails with the file only provisioned; otherwise the file gains exactly the record's row at the end |
| `EspecieStore.Store.Actualizar` | AsistentePA/src/asistentepa/Especie.java:99-115 | a bad record fails before the file is touched; a key no record matches (untrimmed) fails with "not found"; otherwise the file is rewritten with the first match replaced by the whole incoming record |
| `EspecieStore.ReplaceFirst` | AsistentePA/src/asistentepa/Especie.java:102-110 | the loop overwrites exactly the first matching slot, reports whether there was one, and changes nothing when there is none |
| `EspecieStore.Store.Eliminar` | AsistentePA/src/asistentepa/Especie.java:117-138 | a null or blank key changes nothing; otherwise the file is rewritten with the records whose key does not match the trimmed key, in order |
| `EspecieStore.KeepOthers` | AsistentePA/src/asistentepa/Especie.java:122-136 | the counting pass sizes a fresh array exactly, and the copying pass fills it with the survivors in order |
| `EspecieStore.Store.EscribirTodo` | AsistentePA/src/asistentepa/Especie.java:192-217 | the file becomes the header followed by one row per record, replacing the old contents |
| `EspecieStore.RenderLines` | AsistentePA/src/asistentepa/Especie.java:195-204 | the write loop produces the lines the rewritten file reads back as, none holding a line break |
| `EspecieStore.HeaderIsOneLine` | AsistentePA/src/asistentepa/Especie.java:24-27 | the joined header has no line break and reads back as one line |
| `EspecieStore.ReadStep` | AsistentePA/src/asistentepa/Especie.java:72-76 | one more non-blank line is one more data line, stays within the count, and either adds its record or ends the read with its error |
| `EspecieStore.DecodeFailurePersists` | AsistentePA/src/asistentepa/Especie.java:75-76 | once a row fails to decode, the whole read fails with that row's error, whatever follows |
| `EspecieStore.DecodedAreStorable` | AsistentePA/src/asistentepa/Especie.java:59-82 | every record read from a file has non-null strings without line breaks, so a rewrite gives it back unchanged |
| `EspecieStore.RowIsOneLine` | AsistentePA/src/asistentepa/Especie.java:219-230 | the row of such a record is one non-blank line without line breaks |
| `EspecieStore.RenderShape` | AsistentePA/src/asistentepa/Especie.java:195-204 | the rewritten file has the header first and exactly one line per record |
| `EspecieStore.RenderRoundTrip` | AsistentePA/src/asistentepa/Especie.java:192-204 | for records with non-null strings free of line breaks, `leerTodos` after `escribirTodo` returns exactly the records written, in order; all lines after the header are data lines |
| `EspecieStore.SurvivorsGrow` | AsistentePA/src/asistentepa/Especie.java:122-136 | the survivors of a prefix are never more than the survivors of the whole array, so the copy index stays within the count |
| `EspecieStore.SurvivorsIdempotent` | AsistentePA/src/asistentepa/Especie.java:117-138 | filtering twice by the same key is filtering once |
| `EspecieStore.SurvivorsOfAbsentKey` | AsistentePA/src/asistentepa/Especie.java:123-136 | deleting a key no record matches keeps every record |
| `EspecieStore.EliminarTwiceChangesNothing` | AsistentePA/src/asistentepa/Especie.java:117-138 | a second `eliminar` of the same key reads back the first one's survivors and rewrites the same file |
| `EspecieStore.EliminarLeavesNoMatch` | AsistentePA/src/asistentepa/Especie.java:117-138 | after `eliminar`, no record read back has the deleted key in any casing |
| `EspecieStore.ActualizarReadBack` | AsistentePA/src/asistentepa/Especie.java:103-114 | after `actualizar` the file reads back with the same count, the new record at the match (its `null` strings read back as "") and every other record unchanged in place |
| `EspecieStore.ActualizarKeepsKeysUnique` | AsistentePA/src/asistentepa/Especie.java:99-115 | replacing the first record that matches the new key keeps the keys unique ignoring case |
| `EspecieStore.EliminarKeepsKeysUnique` | AsistentePA/src/asistentepa/Especie.java:117-138 | the records `eliminar` keeps have keys that are unique ignoring case when the old ones were |
| `EspecieStore.EliminarAbsentKeyKeepsFile` | AsistentePA/src/asistentepa/Especie.java:117-138 | deleting a key no record matches rewrites a file the store wrote itself to exactly the same lines |
| `EspecieStore.EliminarDropsBlankLines` | AsistentePA/src/asistentepa/Especie.java:192-204 | a file with a blank line among its rows is never left as it was by `eliminar`, even of an absent key, because `escribirTodo` writes one line per record |
| `EspecieStore.EliminarBlankLineExample` | AsistentePA/src/asistentepa/Especie.java:72-74 | the file of a first line, a blank line and one row reads back as that one record, and `eliminar` of any key rewrites it without the blank line |
| `EspecieStore.AppendReadBack` | AsistentePA/src/asistentepa/Especie.java:51-53 | appending a record's row adds exactly that record at the end of what `leerTodos` returns |
| `EspecieStore.RegistrarKeepsKeysUnique` | AsistentePA/src/asistentepa/Especie.java:45-57 | with a key that is already trimmed, a successful `registrar` keeps the keys unique ignoring case |
| `EspecieStore.RegistrarAdmitsPaddedDuplicate` | AsistentePA/src/asistentepa/Especie.java:48-52 | a record whose key has surrounding blanks does not find itself once stored, so it can be registered a second time and is then read back twice |

## Left out

- I/O failures are not modelled: no `IOException`, nor the `RuntimeException`
  wrapping one, and their message texts are dropped. Directory creation, the
  UTF-8 charset and the fixed path `localDB/especies.csv` are left out too.
  The model is a single file seen as the lines `readLine` returns.
- The platform line separator is not modelled. `newLine` is modelled as
  "\n". "\r\n" and "\r" read back as the same lines.
- `escribirTodo`'s temporary file and its `ATOMIC_MOVE`-then-plain-move
  fallback are not modelled: the file's lines are replaced in one step.
  Concurrent access by several processes, including the lost update between
  a read and a rewrite, is out of scope.
- Double formatting and parsing are floating point, so a `double` column is
  kept as the decimal literal text it is written with. The model therefore
  does not capture `String.valueOf(double)` reformatting a value (say
  "1e2" written back as "100.0").
- `Numbers.ParseDouble`: reads a trimmed decimal literal, with an optional
  sign, fraction and exponent, as itself, and anything else as "0.0". Three
  forms `Double.parseDouble` accepts are not modelled: "NaN", "Infinity" and
  hexadecimal literals, and a trailing `d` or `f`.
- `Text.EqualsIgnoreCase`: folds ASCII letters only, not the full Unicode
  case mapping of `String.equalsIgnoreCase`.
- `Numbers.ParseJavaInt`: accepts ASCII digits only. `Integer.parseInt` also
  accepts other Unicode decimal digits.
- The arrays in the model never hold `null`. A successful `leerTodos` fills
  every slot, so the `e != null` tests in `buscar`, `actualizar`, `eliminar`
  and `escribirTodo` always pass there. For the same reason the
  `NullPointerException` that `actualizar` would raise on a record with a
  `null` key is unreachable: a row read from the file always has a key,
  possibly "".
- `EspecieStore.Store.Registrar`: the file is modelled as the list of its
  complete lines, so the model assumes the file ends with a line terminator.
  Every file the store writes does. `registrar` appends in place, so on a
  file whose last line has no terminator the Java glues the new row onto
  that line. For a file holding only an unterminated header, the record is
  then lost and the same key can be registered again. The model does not
  capture this.
- `EspecieStore.AppendReadBack`: relies on the same assumption that the
  file ends with a line terminator.
- `registrar` is an instance method, so its record is never null. The model
  passes the record itself, and the "null record" case of `validarClave` is
  reached through `actualizar`.
- `toString` and `main` (display and demo code) are not modelled.
- `Lote.java` is not part of this model: no method of the store reads or
  writes it.

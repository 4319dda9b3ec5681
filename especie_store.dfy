/**
 * The species store: a CSV file whose first line is a header and whose
 * other lines are species rows, keyed case-insensitively by
 * `nombreCientifico`. Every operation re-reads the file; updates and
 * deletes rewrite it whole, inserts append one row.
 */
module EspecieStore {
  import opened Wrappers
  import opened Text
  import opened Numbers
  import opened EspecieCsv

  /** The column names of the header row. */
  const HeaderNames: seq<string> := ["nombreCientifico", "nombreComun", "categoria", "cicloProduccion",
    "humedadRequerida", "luzRequerida", "temperaturaOptima", "precioVenta"]

  /** `String.join(",", header)`: the first line of every file the store writes. */
  const Header: string := JoinComma(HeaderNames)

  /** The store's exceptions, other than I/O failures. */
  datatype StoreError =
    | NullRecord                    // "Especie nula."
    | MissingKey                    // "nombreCientifico es obligatorio (clave)."
    | Duplicate(key: string)        // "Ya existe Especie con nombreCientifico=..."
    | NotFound(key: string)         // "No existe Especie con nombreCientifico=..."
    | MalformedRow(received: nat)   // "Fila CSV inválida. Esperadas 8 columnas, recibidas: ..."

  /** `validarClave`: a record must exist and have a key that is not blank. */
  function ValidarClave(e: Option<Especie>): (r: Outcome<StoreError>)
    ensures r.Pass? <==> e.Some? && e.value.nombreCientifico.Some? && !IsBlank(e.value.nombreCientifico.value)
    ensures r.Fail? ==> r.error == if e.None? then NullRecord else MissingKey
  {
    if e.None? then Fail(NullRecord)
    else if e.value.nombreCientifico.None? then Fail(MissingKey)
    else
      TrimFacts(e.value.nombreCientifico.value);
      if Trim(e.value.nombreCientifico.value) == [] then Fail(MissingKey) else Pass
  }

  /** A key `buscar` and `eliminar` answer without reading the file: null or blank. */
  predicate IsAbsentKey(key: JString) {
    key.None? || Trim(key.value) == []
  }

  // ------------------------------------------------------- file contents

  /** The lines after `ensureFileExists`: a missing or empty file holds just the header. */
  function Provisioned(present: bool, lines: seq<string>): seq<string> {
    if !present || lines == [] then [Header] else lines
  }

  /**
   * The lines `leerTodos` and `contarFilasDatos` treat as rows: every line
   * after the first that is not blank after trimming, in order.
   */
  function DataLines(lines: seq<string>): (r: seq<string>)
    ensures |r| < |lines| || lines == []
  {
    if |lines| <= 1 then []
    else DataLines(lines[..|lines| - 1]) + (if Trim(lines[|lines| - 1]) == [] then [] else [lines[|lines| - 1]])
  }

  /** How one data line becomes a record; the store uses `DecodeLine`. */
  type RowDecoder = string -> Result<Especie, RowError>

  /** Decodes rows in order with `dec`; the first malformed row is the error. */
  function DecodeEach(ls: seq<string>, dec: RowDecoder): (r: Result<seq<Especie>, StoreError>)
    ensures r.Success? ==> |r.value| == |ls|
  {
    if ls == [] then Success([])
    else
      match DecodeEach(ls[..|ls| - 1], dec)
      case Failure(x) => Failure(x)
      case Success(rs) =>
        match dec(ls[|ls| - 1])
        case Failure(bad) => Failure(MalformedRow(bad.received))
        case Success(e) => Success(rs + [e])
  }

  /** What `leerTodos` returns for a file with these lines. */
  function DecodeAll(lines: seq<string>): Result<seq<Especie>, StoreError> {
    DecodeEach(DataLines(lines), DecodeLine)
  }

  /** The file `escribirTodo` leaves: the header, then one row per record, each followed by a newline. */
  function Render(rs: seq<Especie>): seq<string> {
    if rs == [] then LinesOf(Header)
    else Render(rs[..|rs| - 1]) + LinesOf(ToCsvLine(rs[|rs| - 1]))
  }

  // ------------------------------------------------------- keys

  /** The matching test of `buscar`, `actualizar` and `eliminar`: a non-null key equal ignoring case. */
  predicate KeyMatches(e: Especie, clave: string) {
    e.nombreCientifico.Some? && EqualsIgnoreCase(e.nombreCientifico.value, clave)
  }

  /** The position of the first record, in file order, whose key matches `clave`. */
  function FirstMatch(rs: seq<Especie>, clave: string): (r: Option<nat>)
    ensures r.Some? ==> r.value < |rs| && KeyMatches(rs[r.value], clave)
    ensures r.Some? ==> forall j :: 0 <= j < r.value ==> !KeyMatches(rs[j], clave)
    ensures r.None? <==> forall j :: 0 <= j < |rs| ==> !KeyMatches(rs[j], clave)
  {
    if rs == [] then None
    else if KeyMatches(rs[0], clave) then Some(0)
    else match FirstMatch(rs[1..], clave)
      case None => None
      case Some(i) => Some(i + 1)
  }

  /** What `buscar` answers once it has decoded the records. */
  function FindFirst(rs: seq<Especie>, clave: string): Option<Especie> {
    match FirstMatch(rs, clave)
    case None => None
    case Some(i) => Some(rs[i])
  }

  /** The records `eliminar` keeps: those with a key that does not match, in order. */
  function Survivors(rs: seq<Especie>, clave: string): (r: seq<Especie>)
    ensures |r| <= |rs|
    ensures forall k :: 0 <= k < |r| ==> r[k] in rs && r[k].nombreCientifico.Some? && !KeyMatches(r[k], clave)
    ensures forall k :: 0 <= k < |rs| && rs[k].nombreCientifico.Some? && !KeyMatches(rs[k], clave) ==> rs[k] in r
  {
    if rs == [] then []
    else
      var last := rs[|rs| - 1];
      var kept := Survivors(rs[..|rs| - 1], clave);
      assert forall k :: 0 <= k < |rs| - 1 ==> rs[k] == rs[..|rs| - 1][k];
      if last.nombreCientifico.Some? && !KeyMatches(last, clave) then kept + [last] else kept
  }

  /** No two records have keys equal ignoring case. */
  predicate UniqueKeys(rs: seq<Especie>) {
    forall i, j :: 0 <= i < j < |rs| && rs[j].nombreCientifico.Some? ==>
      !KeyMatches(rs[i], rs[j].nombreCientifico.value)
  }

  /** A record the file can hold and give back unchanged: non-null strings without line breaks. */
  predicate Storable(e: Especie) {
    e == Normalize(e) && NoBreaks(e.nombreCientifico.value) && NoBreaks(e.nombreComun.value)
    && NoBreaks(e.categoria.value)
  }

  predicate AllStorable(rs: seq<Especie>) {
    forall k :: 0 <= k < |rs| ==> Storable(rs[k])
  }

  predicate AllUnbroken(lines: seq<string>) {
    forall k :: 0 <= k < |lines| ==> NoBreaks(lines[k])
  }

  /** Line by line, `ls` decodes to `rs` with `dec`. */
  predicate DecodesTo(ls: seq<string>, rs: seq<Especie>, dec: RowDecoder) {
    |ls| == |rs| && forall k :: 0 <= k < |ls| ==> dec(ls[k]) == Success(rs[k])
  }

  /** A record with an empty key, used only to fill freshly allocated arrays. */
  const Blank: Especie := Especie(None, None, None, 0, "0.0", "0.0", "0.0", "0.0")

  // ------------------------------------------------------- the store

  /** The CSV file `localDB/especies.csv`, as whether it exists and the lines `readLine` returns. */
  class Store {
    var present: bool
    var lines: seq<string>

    /** No line read from a file holds a line break; a missing file has no lines. */
    ghost predicate Valid()
      reads this
    {
      AllUnbroken(lines) && (!present ==> lines == [])
    }

    constructor (present: bool, lines: seq<string>)
      requires AllUnbroken(lines) && (!present ==> lines == [])
      ensures Valid() && this.present == present && this.lines == lines
    {
      this.present := present;
      this.lines := lines;
    }

    /** `ensureFileExists`: writes the header into a missing or zero-length file. */
    method EnsureFileExists()
      requires Valid()
      modifies this
      ensures Valid() && present
      ensures lines == Provisioned(old(present), old(lines))
    {
      HeaderIsOneLine();
      if !present {
        present := true;
        lines := LinesOf(Header);
      } else if lines == [] {
        lines := lines + LinesOf(Header);
      }
    }

    /** `contarFilasDatos`: the number of non-blank lines after the header. */
    method ContarFilasDatos() returns (count: nat)
      requires present
      ensures count == |DataLines(lines)|
    {
      count := 0;
      var first := true;
      var i := 0;
      while i < |lines|
        invariant 0 <= i <= |lines|
        invariant first <==> i == 0
        invariant count == |DataLines(lines[..i])|
      {
        var line := lines[i];
        DataLinesStep(lines, i);
        if first {
          first := false;
        } else if Trim(line) != [] {
          count := count + 1;
        }
        i := i + 1;
      }
      TakeAll(lines);
    }

    /**
     * `leerTodos`: provisions the file, sizes the array by
     * `contarFilasDatos`, then decodes every non-blank line after the header
     * into it; a row with fewer than 8 columns aborts the read.
     */
    method LeerTodos() returns (res: Result<array<Especie>, StoreError>)
      requires Valid()
      modifies this
      ensures Valid() && present && lines == Provisioned(old(present), old(lines))
      ensures DecodeAll(lines).Failure? ==> res == Failure(DecodeAll(lines).error)
      ensures DecodeAll(lines).Success? ==>
        res.Success? && fresh(res.value) && res.value[..] == DecodeAll(lines).value
    {
      EnsureFileExists();
      var total := ContarFilasDatos();
      res := ReadRows(lines, total, DecodeLine);
    }

    /**
     * `buscar`: a null or blank key finds nothing without reading the file;
     * otherwise the first record whose key equals the trimmed key ignoring case.
     */
    method Buscar(key: JString) returns (res: Result<Option<Especie>, StoreError>)
      requires Valid()
      modifies this
      ensures Valid()
      ensures IsAbsentKey(key) ==> res == Success(None) && present == old(present) && lines == old(lines)
      ensures !IsAbsentKey(key) ==> present && lines == Provisioned(old(present), old(lines))
      ensures !IsAbsentKey(key) && DecodeAll(lines).Failure? ==> res == Failure(DecodeAll(lines).error)
      ensures !IsAbsentKey(key) && DecodeAll(lines).Success? ==>
        res == Success(FindFirst(DecodeAll(lines).value, Trim(key.value)))
    {
      if IsAbsentKey(key) {
        return Success(None);
      }
      var clave := Trim(key.value);
      var all := LeerTodos();
      if all.Failure? {
        return Failure(all.error);
      }
      var found := FirstMatching(all.value, clave);
      return Success(found);
    }

    /**
     * `registrar`: validates the key, provisions the file, refuses a key
     * that `buscar` finds (trimmed, ignoring case) and otherwise appends the
     * record's row, with its key as given.
     */
    method Registrar(e: Especie) returns (outcome: Outcome<StoreError>)
      requires Valid()
      modifies this
      ensures Valid()
      ensures ValidarClave(Some(e)).Fail? ==>
        outcome == ValidarClave(Some(e)) && present == old(present) && lines == old(lines)
      ensures ValidarClave(Some(e)).Pass? ==>
        var f := Provisioned(old(present), old(lines));
        var key := e.nombreCientifico.value;
        present &&
        (DecodeAll(f).Failure? ==> outcome == Fail(DecodeAll(f).error) && lines == f) &&
        (DecodeAll(f).Success? && FirstMatch(DecodeAll(f).value, Trim(key)).Some? ==>
           outcome == Fail(Duplicate(key)) && lines == f) &&
        (DecodeAll(f).Success? && FirstMatch(DecodeAll(f).value, Trim(key)).None? ==>
           outcome == Pass && lines == f + LinesOf(ToCsvLine(e)))
    {
      var valid := ValidarClave(Some(e));
      if valid.Fail? {
        return valid;
      }
      EnsureFileExists();
      var found := Buscar(e.nombreCientifico);
      if found.Failure? {
        return Fail(found.error);
      }
      if found.value.Some? {
        return Fail(Duplicate(e.nombreCientifico.value));
      }
      LinesOfAreUnbroken(ToCsvLine(e));
      lines := lines + LinesOf(ToCsvLine(e));
      return Pass;
    }

    /**
     * `actualizar`: replaces the first record whose key equals the incoming
     * key (untrimmed) ignoring case with the whole incoming record, and
     * rewrites the file; a key nobody has is an error.
     */
    method Actualizar(upd: Option<Especie>) returns (outcome: Outcome<StoreError>)
      requires Valid()
      modifies this
      ensures Valid()
      ensures ValidarClave(upd).Fail? ==>
        outcome == ValidarClave(upd) && present == old(present) && lines == old(lines)
      ensures ValidarClave(upd).Pass? ==>
        var f := Provisioned(old(present), old(lines));
        var key := upd.value.nombreCientifico.value;
        present &&
        (DecodeAll(f).Failure? ==> outcome == Fail(DecodeAll(f).error) && lines == f) &&
        (DecodeAll(f).Success? && FirstMatch(DecodeAll(f).value, key).None? ==>
           outcome == Fail(NotFound(key)) && lines == f) &&
        (DecodeAll(f).Success? && FirstMatch(DecodeAll(f).value, key).Some? ==>
           outcome == Pass &&
           lines == Render(DecodeAll(f).value[FirstMatch(DecodeAll(f).value, key).value := upd.value]))
    {
      var valid := ValidarClave(upd);
      if valid.Fail? {
        return valid;
      }
      var all := LeerTodos();
      if all.Failure? {
        return Fail(all.error);
      }
      var key := upd.value.nombreCientifico.value;
      DecodedAreStorable(lines);
      var found := ReplaceFirst(all.value, upd.value, key);
      if !found {
        return Fail(NotFound(key));
      }
      EscribirTodo(all.value);
      return Pass;
    }

    /**
     * `eliminar`: a null or blank key does nothing; otherwise rewrites the
     * file with the records whose key does not match the trimmed key.
     */
    method Eliminar(key: JString) returns (outcome: Outcome<StoreError>)
      requires Valid()
      modifies this
      ensures Valid()
      ensures IsAbsentKey(key) ==> outcome == Pass && present == old(present) && lines == old(lines)
      ensures !IsAbsentKey(key) ==>
        var f := Provisioned(old(present), old(lines));
        present &&
        (DecodeAll(f).Failure? ==> outcome == Fail(DecodeAll(f).error) && lines == f) &&
        (DecodeAll(f).Success? ==>
           outcome == Pass && lines == Render(Survivors(DecodeAll(f).value, Trim(key.value))))
    {
      if IsAbsentKey(key) {
        return Pass;
      }
      var all := LeerTodos();
      if all.Failure? {
        return Fail(all.error);
      }
      var nuevo := KeepOthers(all.value, Trim(key.value));
      EscribirTodo(nuevo);
      return Pass;
    }

    /**
     * `escribirTodo`: writes the header and one row per record to a
     * temporary file and moves it over the store's file.
     */
    method EscribirTodo(especies: array<Especie>)
      requires Valid()
      modifies this
      ensures Valid() && present
      ensures lines == Render(especies[..])
    {
      EnsureFileExists();
      var tmp := RenderLines(especies);
      lines := tmp;
    }
  }

  // ------------------------------------------------------- the loops of the store

  /**
   * The read loop of `leerTodos` over the lines of the file, `total` being
   * `contarFilasDatos`; each data line goes through `dec`, which `leerTodos`
   * fixes to `fromColumns(parseCsvLine(line))`.
   */
  method ReadRows(content: seq<string>, total: nat, dec: RowDecoder) returns (res: Result<array<Especie>, StoreError>)
    requires total == |DataLines(content)|
    ensures DecodeEach(DataLines(content), dec).Failure? ==>
      res == Failure(DecodeEach(DataLines(content), dec).error)
    ensures DecodeEach(DataLines(content), dec).Success? ==>
      res.Success? && fresh(res.value) && res.value[..] == DecodeEach(DataLines(content), dec).value
  {
    var arr := new Especie[total](_ => Blank);
    var idx := 0;
    var first := true;
    var i := 0;
    ghost var rows: seq<Especie> := [];
    ghost var d: seq<string> := [];
    while i < |content|
      invariant 0 <= i <= |content|
      invariant first <==> i == 0
      invariant d == DataLines(content[..i])
      invariant idx == |rows| <= total
      invariant DecodesTo(d, rows, dec)
      invariant arr[..idx] == rows
    {
      var line := content[i];
      if first {
        SkipStep(content, i);
        first := false;
      } else if Trim(line) != [] {
        var row := dec(line);
        ReadStep(content, i, d, rows, dec);
        if row.Failure? {
          return Failure(MalformedRow(row.error.received));
        }
        arr[idx] := row.value;
        rows := rows + [row.value];
        d := d + [line];
        PrefixSnoc(arr[..], idx);
        idx := idx + 1;
      } else {
        SkipStep(content, i);
      }
      i := i + 1;
    }
    TakeAll(content);
    DecodesToEach(d, rows, dec);
    TakeAll(arr[..]);
    return Success(arr);
  }

  /** `fromColumns(parseCsvLine(line))`, as `leerTodos` decodes each row. */
  method DecodeRow(line: string) returns (row: Result<Especie, RowError>)
    ensures row == DecodeLine(line)
  {
    var cols := ParseCsvLine(line);
    row := FromColumns(cols[..]);
  }

  /** The search loop of `buscar`: the first record whose key matches `clave`. */
  method FirstMatching(arr: array<Especie>, clave: string) returns (found: Option<Especie>)
    ensures found == FindFirst(arr[..], clave)
  {
    var i := 0;
    while i < arr.Length
      invariant 0 <= i <= arr.Length
      invariant forall j :: 0 <= j < i ==> !KeyMatches(arr[j], clave)
    {
      var e := arr[i];
      if e.nombreCientifico.Some? && EqualsIgnoreCase(e.nombreCientifico.value, clave) {
        assert FirstMatch(arr[..], clave) == Some(i);
        return Some(e);
      }
      i := i + 1;
    }
    return None;
  }

  /**
   * The update loop of `actualizar`: overwrites the first record whose key
   * matches `key` with `e0`, and says whether there was one.
   */
  method ReplaceFirst(arr: array<Especie>, e0: Especie, key: string) returns (found: bool)
    requires forall k :: 0 <= k < arr.Length ==> arr[k].nombreCientifico.Some?
    modifies arr
    ensures found <==> FirstMatch(old(arr[..]), key).Some?
    ensures found ==> arr[..] == old(arr[..])[FirstMatch(old(arr[..]), key).value := e0]
    ensures !found ==> arr[..] == old(arr[..])
  {
    ghost var rs := arr[..];
    var i := 0;
    while i < arr.Length
      invariant 0 <= i <= arr.Length
      invariant arr[..] == rs
      invariant forall j :: 0 <= j < i ==> !KeyMatches(rs[j], key)
    {
      var e := arr[i];
      if EqualsIgnoreCase(e.nombreCientifico.value, key) {
        assert FirstMatch(rs, key) == Some(i);
        arr[i] := e0;
        return true;
      }
      i := i + 1;
    }
    return false;
  }

  /**
   * The two loops of `eliminar`: count the records to keep, then copy them,
   * in order, into an array of exactly that size.
   */
  method KeepOthers(arr: array<Especie>, clave: string) returns (nuevo: array<Especie>)
    ensures fresh(nuevo) && nuevo[..] == Survivors(arr[..], clave)
  {
    var count := 0;
    for i := 0 to arr.Length
      invariant count == |Survivors(arr[..i], clave)|
    {
      SurvivorsStep(arr[..], i, clave);
      var e := arr[i];
      if e.nombreCientifico.Some? && !EqualsIgnoreCase(e.nombreCientifico.value, clave) {
        count := count + 1;
      }
    }
    ghost var rs := arr[..];
    TakeAll(rs);
    SurvivorsGrow(rs, 0, clave);
    nuevo := new Especie[count](_ => Blank);
    var j := 0;
    for i := 0 to arr.Length
      invariant arr[..] == rs
      invariant j == |Survivors(rs[..i], clave)| <= count
      invariant nuevo[..j] == Survivors(rs[..i], clave)
    {
      SurvivorsStep(rs, i, clave);
      SurvivorsGrow(rs, i + 1, clave);
      var e := arr[i];
      if e.nombreCientifico.Some? && !EqualsIgnoreCase(e.nombreCientifico.value, clave) {
        nuevo[j] := e;
        PrefixSnoc(nuevo[..], j);
        j := j + 1;
      }
    }
    TakeAll(rs);
    TakeAll(nuevo[..]);
  }

  /** The write loop of `escribirTodo`: the lines the rewritten file reads back as. */
  method RenderLines(especies: array<Especie>) returns (tmp: seq<string>)
    ensures AllUnbroken(tmp)
    ensures tmp == Render(especies[..])
  {
    HeaderIsOneLine();
    tmp := LinesOf(Header);
    for i := 0 to especies.Length
      invariant AllUnbroken(tmp)
      invariant tmp == Render(especies[..i])
    {
      TakeOfTake(especies[..], i);
      LinesOfAreUnbroken(ToCsvLine(especies[i]));
      tmp := tmp + LinesOf(ToCsvLine(especies[i]));
    }
    TakeAll(especies[..]);
  }

  // ------------------------------------------------------- lemmas on file contents

  lemma DataLinesStep(lines: seq<string>, i: nat)
    requires i < |lines|
    ensures DataLines(lines[..i + 1]) ==
      DataLines(lines[..i]) + (if i > 0 && Trim(lines[i]) != [] then [lines[i]] else [])
  {
    TakeOfTake(lines, i);
  }

  /** The header is one line: it reads back as itself. */
  lemma HeaderIsOneLine()
    ensures NoBreaks(Header) && LinesOf(Header) == [Header]
  {
    forall k | 0 <= k < 8 ensures NoBreaks(HeaderNames[k]) {
      var name := HeaderNames[k];
      assert forall j :: 0 <= j < |name| ==> 'a' <= name[j] <= 'z' || 'A' <= name[j] <= 'Z';
    }
    JoinUnbroken(HeaderNames);
    LinesOfUnbroken(Header);
  }

  /**
   * One data line more: its record is appended to those read so far, or
   * its error is the error of the whole read.
   */
  lemma ReadStep(lines: seq<string>, i: nat, d: seq<string>, rs: seq<Especie>, dec: RowDecoder)
    requires 0 < i < |lines| && Trim(lines[i]) != []
    requires d == DataLines(lines[..i]) && DecodesTo(d, rs, dec)
    ensures DataLines(lines[..i + 1]) == d + [lines[i]]
    ensures |d| < |DataLines(lines)|
    ensures dec(lines[i]).Success? ==> DecodesTo(d + [lines[i]], rs + [dec(lines[i]).value], dec)
    ensures dec(lines[i]).Failure? ==>
      DecodeEach(DataLines(lines), dec) == Failure(MalformedRow(dec(lines[i]).error.received))
  {
    DataLinesStep(lines, i);
    DataLinesPrefix(lines, i + 1);
    var row := dec(lines[i]);
    if row.Failure? {
      DecodesToEach(d, rs, dec);
      DecodeEachSnoc(d, lines[i], dec);
      DecodeFailurePersists(lines, i + 1, dec);
    } else {
      var d1, rs1 := d + [lines[i]], rs + [row.value];
      forall k | 0 <= k < |d1| ensures dec(d1[k]) == Success(rs1[k]) {
        if k < |d| {
          assert d1[k] == d[k] && rs1[k] == rs[k];
        }
      }
    }
  }

  /** Rows that decode one by one decode together, in order. */
  lemma {:induction false} DecodesToEach(ls: seq<string>, rs: seq<Especie>, dec: RowDecoder)
    requires DecodesTo(ls, rs, dec)
    ensures DecodeEach(ls, dec) == Success(rs)
    decreases |ls|
  {
    if ls != [] {
      var n := |ls| - 1;
      assert DecodesTo(ls[..n], rs[..n], dec) by {
        forall k | 0 <= k < n ensures dec(ls[..n][k]) == Success(rs[..n][k]) {
          assert ls[..n][k] == ls[k];
        }
      }
      DecodesToEach(ls[..n], rs[..n], dec);
      FrontAndLast(rs);
    }
  }

  /** The header and blank lines add no row. */
  lemma SkipStep(lines: seq<string>, i: nat)
    requires i < |lines| && (i == 0 || Trim(lines[i]) == [])
    ensures DataLines(lines[..i + 1]) == DataLines(lines[..i])
  {
    DataLinesStep(lines, i);
    assert DataLines(lines[..i]) + [] == DataLines(lines[..i]);
  }

  /** The rows of a prefix of the file are a prefix of the rows of the file. */
  lemma {:induction false} DataLinesPrefix(lines: seq<string>, i: nat)
    requires i <= |lines|
    ensures DataLines(lines[..i]) <= DataLines(lines)
    decreases |lines| - i
  {
    if i == |lines| {
      TakeAll(lines);
    } else {
      DataLinesStep(lines, i);
      DataLinesPrefix(lines, i + 1);
    }
  }

  /** A failed decode stays failed, with the same error, whatever rows follow. */
  lemma {:induction false} DecodeFailureExtends(d: seq<string>, ext: seq<string>, dec: RowDecoder)
    requires DecodeEach(d, dec).Failure?
    ensures DecodeEach(d + ext, dec) == DecodeEach(d, dec)
    decreases |ext|
  {
    if ext == [] {
      assert d + ext == d;
    } else {
      var init := ext[..|ext| - 1];
      DecodeFailureExtends(d, init, dec);
      assert d + ext == (d + init) + [ext[|ext| - 1]];
      DecodeFailureSnoc(d + init, ext[|ext| - 1], dec);
    }
  }

  /** Once a row fails to decode, the whole read fails with that row's error. */
  lemma DecodeFailurePersists(lines: seq<string>, i: nat, dec: RowDecoder)
    requires i <= |lines|
    requires DecodeEach(DataLines(lines[..i]), dec).Failure?
    ensures DecodeEach(DataLines(lines), dec) == DecodeEach(DataLines(lines[..i]), dec)
  {
    var d := DataLines(lines[..i]);
    var all := DataLines(lines);
    DataLinesPrefix(lines, i);
    PrefixAndRest(d, all);
    DecodeFailureExtends(d, all[|d|..], dec);
  }

  lemma DecodeFailureSnoc(d: seq<string>, l: string, dec: RowDecoder)
    requires DecodeEach(d, dec).Failure?
    ensures DecodeEach(d + [l], dec) == DecodeEach(d, dec)
  {
    assert (d + [l])[..|d|] == d;
  }

  lemma {:induction false} DataLinesUnbroken(lines: seq<string>)
    requires AllUnbroken(lines)
    ensures AllUnbroken(DataLines(lines))
    decreases |lines|
  {
    if |lines| > 1 {
      DataLinesUnbroken(lines[..|lines| - 1]);
    }
  }

  /** `DecodeEach` one line further: the new line's record is appended, or its error ends the read. */
  lemma DecodeEachSnoc(d: seq<string>, l: string, dec: RowDecoder)
    ensures DecodeEach(d, dec).Failure? ==> DecodeEach(d + [l], dec) == DecodeEach(d, dec)
    ensures DecodeEach(d, dec).Success? && dec(l).Failure? ==>
      DecodeEach(d + [l], dec) == Failure(MalformedRow(dec(l).error.received))
    ensures DecodeEach(d, dec).Success? && dec(l).Success? ==>
      DecodeEach(d + [l], dec) == Success(DecodeEach(d, dec).value + [dec(l).value])
  {
    assert (d + [l])[..|d|] == d;
    assert (d + [l])[|d|] == l;
  }

  /** A row read from a line without line breaks is storable. */
  lemma DecodeLineStorable(l: string)
    requires NoBreaks(l)
    ensures DecodeLine(l).Success? ==> Storable(DecodeLine(l).value)
  {
    ScanUnbroken(l, false, "", []);
    var c := Split(l);
    if |c| >= 8 {
      assert NoBreaks(c[0]) && NoBreaks(c[1]) && NoBreaks(c[2]);
    }
  }

  lemma {:induction false} DecodeEachStorable(ls: seq<string>)
    requires AllUnbroken(ls)
    ensures DecodeEach(ls, DecodeLine).Success? ==> AllStorable(DecodeEach(ls, DecodeLine).value)
    decreases |ls|
  {
    if ls != [] {
      var init := ls[..|ls| - 1];
      var l := ls[|ls| - 1];
      assert AllUnbroken(init);
      DecodeEachStorable(init);
      DecodeLineStorable(l);
      assert ls == init + [l];
      DecodeEachSnoc(init, l, DecodeLine);
    }
  }

  /** Every record read from a file is storable: the file gives it back unchanged if rewritten. */
  lemma DecodedAreStorable(lines: seq<string>)
    requires AllUnbroken(lines)
    ensures DecodeAll(lines).Success? ==> AllStorable(DecodeAll(lines).value)
  {
    DataLinesUnbroken(lines);
    DecodeEachStorable(DataLines(lines));
  }

  lemma {:induction false} EscapeUnbroken(s: string)
    requires NoBreaks(s)
    ensures NoBreaks(Escape(s))
    decreases |s|
  {
    if s != [] {
      EscapeUnbroken(s[1..]);
    }
  }

  lemma {:induction false} JoinUnbroken(fs: seq<string>)
    requires AllUnbroken(fs)
    ensures NoBreaks(JoinComma(fs))
    decreases |fs|
  {
    if |fs| > 1 {
      JoinUnbroken(fs[1..]);
    }
  }

  /** The row of a storable record is one non-blank line without line breaks. */
  lemma RowIsOneLine(e: Especie)
    requires Storable(e)
    ensures NoBreaks(ToCsvLine(e)) && Trim(ToCsvLine(e)) != []
    ensures LinesOf(ToCsvLine(e)) == [ToCsvLine(e)]
  {
    EscapeUnbroken(e.nombreCientifico.value);
    EscapeUnbroken(e.nombreComun.value);
    EscapeUnbroken(e.categoria.value);
    FormatIntChars(e.cicloProduccion);
    LiteralChars(e.humedadRequerida);
    LiteralChars(e.luzRequerida);
    LiteralChars(e.temperaturaOptima);
    LiteralChars(e.precioVenta);
    var fs := [Q(e.nombreCientifico), Q(e.nombreComun), Q(e.categoria),
               FormatInt(e.cicloProduccion),
               e.humedadRequerida, e.luzRequerida, e.temperaturaOptima, e.precioVenta];
    JoinUnbroken(fs);
    var line := ToCsvLine(e);
    assert line == fs[0] + "," + JoinComma(fs[1..]);
    assert line[0] == '"';
    TrimFacts(line);
    LinesOfUnbroken(line);
  }

  /** `escribirTodo` writes the row of a storable record as one more line. */
  lemma RenderSnoc(rs: seq<Especie>)
    requires rs != [] && Storable(rs[|rs| - 1])
    ensures Render(rs) == Render(rs[..|rs| - 1]) + [ToCsvLine(rs[|rs| - 1])]
  {
    RowIsOneLine(rs[|rs| - 1]);
  }

  /** The file `escribirTodo` leaves is the header followed by one line per record. */
  lemma {:induction false} RenderShape(rs: seq<Especie>)
    requires AllStorable(rs)
    ensures |Render(rs)| == |rs| + 1 && Render(rs)[0] == Header
    ensures AllUnbroken(Render(rs))
    decreases |rs|
  {
    HeaderIsOneLine();
    if rs != [] {
      var init := rs[..|rs| - 1];
      assert AllStorable(init);
      RenderShape(init);
      RenderSnoc(rs);
      RowIsOneLine(rs[|rs| - 1]);
    }
  }

  /** Dropping the first element commutes with appending one at the end. */
  lemma TailOfSnoc<T>(a: seq<T>, x: T)
    requires a != []
    ensures (a + [x])[1..] == a[1..] + [x]
    ensures (a + [x])[..|a|] == a
  {
  }

  /** A prefix one element longer is the prefix followed by that element. */
  lemma PrefixSnoc<T>(s: seq<T>, n: nat)
    requires n < |s|
    ensures s[..n + 1] == s[..n] + [s[n]]
  {
  }

  /** A sequence with a given prefix is that prefix followed by the rest. */
  lemma PrefixAndRest<T>(p: seq<T>, s: seq<T>)
    requires p <= s
    ensures s == p + s[|p|..]
  {
  }

  /** The prefix as long as the sequence is the sequence. */
  lemma TakeAll<T>(s: seq<T>)
    ensures s[..|s|] == s
  {
  }

  /** Appending an element leaves the old sequence as the prefix. */
  lemma SnocFront<T>(a: seq<T>, x: T)
    ensures (a + [x])[..|a|] == a
  {
  }

  /** A prefix of a prefix is a prefix. */
  lemma TakeOfTake<T>(s: seq<T>, i: nat)
    requires i < |s|
    ensures s[..i + 1][..i] == s[..i]
  {
  }

  /** A non-empty sequence is its front followed by its last element. */
  lemma FrontAndLast<T>(s: seq<T>)
    requires s != []
    ensures s == s[..|s| - 1] + [s[|s| - 1]]
  {
  }

  /** Every line after the header of a rewritten file is a data line. */
  lemma {:induction false} DataLinesOfRender(rs: seq<Especie>)
    requires AllStorable(rs)
    ensures DataLines(Render(rs)) == Render(rs)[1..]
    decreases |rs|
  {
    if rs == [] {
      HeaderIsOneLine();
    } else {
      var init := rs[..|rs| - 1];
      var e := rs[|rs| - 1];
      assert AllStorable(init);
      DataLinesOfRender(init);
      RenderShape(init);
      RenderSnoc(rs);
      RowIsOneLine(e);
      TailOfSnoc(Render(init), ToCsvLine(e));
    }
  }

  /** Decoding the data lines of a rewritten file gives back the records. */
  lemma {:induction false} DecodeRender(rs: seq<Especie>)
    requires AllStorable(rs)
    ensures DecodeEach(Render(rs)[1..], DecodeLine) == Success(rs)
    decreases |rs|
  {
    if rs == [] {
      HeaderIsOneLine();
    } else {
      var init := rs[..|rs| - 1];
      var e := rs[|rs| - 1];
      assert AllStorable(init);
      DecodeRender(init);
      RenderShape(init);
      RenderSnoc(rs);
      DecodeToCsvLine(e);
      TailOfSnoc(Render(init), ToCsvLine(e));
      DecodeEachSnoc(Render(init)[1..], ToCsvLine(e), DecodeLine);
      FrontAndLast(rs);
    }
  }

  /**
   * Round trip of the whole file: decoding what `escribirTodo` writes for
   * storable records gives back exactly those records, in order.
   */
  lemma RenderRoundTrip(rs: seq<Especie>)
    requires AllStorable(rs)
    ensures |Render(rs)| == |rs| + 1 && Render(rs)[0] == Header
    ensures DataLines(Render(rs)) == Render(rs)[1..]
    ensures AllUnbroken(Render(rs))
    ensures DecodeAll(Render(rs)) == Success(rs)
  {
    RenderShape(rs);
    DataLinesOfRender(rs);
    DecodeRender(rs);
  }

  lemma {:induction false} SurvivorsStep(rs: seq<Especie>, i: nat, clave: string)
    requires i < |rs|
    ensures Survivors(rs[..i + 1], clave) == Survivors(rs[..i], clave) +
      (if rs[i].nombreCientifico.Some? && !KeyMatches(rs[i], clave) then [rs[i]] else [])
  {
    TakeOfTake(rs, i);
  }

  lemma {:induction false} SurvivorsGrow(rs: seq<Especie>, i: nat, clave: string)
    requires i <= |rs|
    ensures |Survivors(rs[..i], clave)| <= |Survivors(rs, clave)|
    decreases |rs| - i
  {
    if i == |rs| {
      TakeAll(rs);
    } else {
      SurvivorsStep(rs, i, clave);
      SurvivorsGrow(rs, i + 1, clave);
    }
  }

  // ------------------------------------------------------- lemmas on the operations

  /** Filtering twice by the same key is filtering once. */
  lemma {:induction false} SurvivorsIdempotent(rs: seq<Especie>, clave: string)
    ensures Survivors(Survivors(rs, clave), clave) == Survivors(rs, clave)
    decreases |rs|
  {
    if rs != [] {
      var init := rs[..|rs| - 1];
      var last := rs[|rs| - 1];
      SurvivorsIdempotent(init, clave);
      var s := Survivors(init, clave);
      if last.nombreCientifico.Some? && !KeyMatches(last, clave) {
        SnocFront(s, last);
      }
    }
  }

  /** Deleting a key nobody has keeps every record (records with a null key aside). */
  lemma {:induction false} SurvivorsOfAbsentKey(rs: seq<Especie>, clave: string)
    requires forall k :: 0 <= k < |rs| ==> rs[k].nombreCientifico.Some? && !KeyMatches(rs[k], clave)
    ensures Survivors(rs, clave) == rs
    decreases |rs|
  {
    if rs != [] {
      SurvivorsOfAbsentKey(rs[..|rs| - 1], clave);
      FrontAndLast(rs);
    }
  }

  /**
   * `eliminar` twice with the same key: the second call reads back exactly
   * the survivors of the first and rewrites the same file.
   */
  lemma EliminarTwiceChangesNothing(f: seq<string>, clave: string)
    requires AllUnbroken(f) && DecodeAll(f).Success?
    ensures var once := Render(Survivors(DecodeAll(f).value, clave));
      Provisioned(true, once) == once &&
      DecodeAll(once) == Success(Survivors(DecodeAll(f).value, clave)) &&
      Render(Survivors(DecodeAll(once).value, clave)) == once
  {
    var rs := DecodeAll(f).value;
    DecodedAreStorable(f);
    var s := Survivors(rs, clave);
    assert AllStorable(s) by {
      forall k | 0 <= k < |s| ensures Storable(s[k]) {
        var j :| 0 <= j < |rs| && rs[j] == s[k];
      }
    }
    RenderRoundTrip(s);
    SurvivorsIdempotent(rs, clave);
  }

  /** After `eliminar`, no record left in the file has the deleted key, in any casing. */
  lemma EliminarLeavesNoMatch(f: seq<string>, clave: string)
    requires AllUnbroken(f) && DecodeAll(f).Success?
    ensures var after := DecodeAll(Render(Survivors(DecodeAll(f).value, clave)));
      after.Success? && FirstMatch(after.value, clave).None?
  {
    EliminarTwiceChangesNothing(f, clave);
  }

  /** `eliminar` keeps the keys unique: the records kept are an in-order selection of the old ones. */
  lemma {:induction false} EliminarKeepsKeysUnique(rs: seq<Especie>, clave: string)
    requires UniqueKeys(rs)
    ensures UniqueKeys(Survivors(rs, clave))
    decreases |rs|
  {
    if rs != [] {
      var init := rs[..|rs| - 1];
      var last := rs[|rs| - 1];
      assert UniqueKeys(init) by {
        forall i, j | 0 <= i < j < |init| && init[j].nombreCientifico.Some?
          ensures !KeyMatches(init[i], init[j].nombreCientifico.value)
        {
          assert init[i] == rs[i] && init[j] == rs[j];
        }
      }
      EliminarKeepsKeysUnique(init, clave);
      var s := Survivors(init, clave);
      if last.nombreCientifico.Some? && !KeyMatches(last, clave) {
        var t := s + [last];
        forall i, j | 0 <= i < j < |t| && t[j].nombreCientifico.Some?
          ensures !KeyMatches(t[i], t[j].nombreCientifico.value)
        {
          if j == |s| {
            var m :| 0 <= m < |init| && init[m] == s[i];
            assert rs[m] == t[i] && rs[|rs| - 1] == t[j];
          } else {
            assert t[i] == s[i] && t[j] == s[j];
          }
        }
      }
    }
  }

  /**
   * Deleting a key nobody has leaves a file the store wrote itself exactly
   * as it was.
   */
  lemma EliminarAbsentKeyKeepsFile(rs: seq<Especie>, clave: string)
    requires AllStorable(rs) && FirstMatch(rs, clave).None?
    ensures DecodeAll(Render(rs)) == Success(rs)
    ensures Render(Survivors(DecodeAll(Render(rs)).value, clave)) == Render(rs)
  {
    RenderRoundTrip(rs);
    SurvivorsOfAbsentKey(rs, clave);
  }

  /**
   * A file with a blank line among its rows is not left as it was by any
   * `eliminar`, even of a key nobody has: `escribirTodo` writes one line per
   * record and drops the blank lines.
   */
  lemma EliminarDropsBlankLines(f: seq<string>, clave: string)
    requires AllUnbroken(f) && DecodeAll(f).Success? && |DataLines(f)| + 1 < |f|
    ensures Render(Survivors(DecodeAll(f).value, clave)) != f
  {
    var s := Survivors(DecodeAll(f).value, clave);
    DecodedAreStorable(f);
    assert AllStorable(s) by {
      forall k | 0 <= k < |s| ensures Storable(s[k]) {
        var j :| 0 <= j < |DecodeAll(f).value| && DecodeAll(f).value[j] == s[k];
      }
    }
    RenderShape(s);
  }

  /** A blank second line is not a row: only the third line of `[h, "", l]` is. */
  lemma BlankSecondLine(h: string, l: string)
    requires NoBreaks(h) && NoBreaks(l) && Trim(l) != [] && DecodeLine(l).Success?
    ensures AllUnbroken([h, "", l]) && DataLines([h, "", l]) == [l]
    ensures DecodeAll([h, "", l]) == Success([DecodeLine(l).value])
  {
    var f := [h, "", l];
    assert f[..2] == [h, ""] && f[..2][..1] == [h];
    assert forall k :: 0 <= k < |f| ==> f[k] == h || f[k] == "" || f[k] == l;
    assert [l][..0] == [] && [l][0] == l;
    assert DecodeEach([], DecodeLine) == Success([]);
    assert [] + [DecodeLine(l).value] == [DecodeLine(l).value];
  }

  /**
   * The smallest such file: a first line `h` (the header, say), a blank line
   * and one row.
   */
  lemma EliminarBlankLineExample(h: string, e: Especie, clave: string)
    requires NoBreaks(h) && Storable(e)
    ensures var f := [h, "", ToCsvLine(e)];
      DecodeAll(f) == Success([e]) && Render(Survivors([e], clave)) != f
  {
    RowIsOneLine(e);
    DecodeToCsvLine(e);
    BlankSecondLine(h, ToCsvLine(e));
    EliminarDropsBlankLines([h, "", ToCsvLine(e)], clave);
  }

  /** `escribirTodo` writes each record only through its row: records with the same rows give the same file. */
  lemma {:induction false} RenderOfSameRows(a: seq<Especie>, b: seq<Especie>)
    requires |a| == |b| && forall k :: 0 <= k < |a| ==> ToCsvLine(a[k]) == ToCsvLine(b[k])
    ensures Render(a) == Render(b)
    decreases |a|
  {
    if a != [] {
      RenderOfSameRows(a[..|a| - 1], b[..|b| - 1]);
    }
  }

  /** Replacing one storable record by another keeps every record storable. */
  lemma UpdateStorable(rs: seq<Especie>, i: nat, e: Especie)
    requires AllStorable(rs) && i < |rs| && Storable(e)
    ensures AllStorable(rs[i := e])
  {
  }

  /**
   * After `actualizar` the file reads back as the old records with the first
   * match replaced: same count, every other record unchanged and in place,
   * and the new record with its `null` strings read back as "".
   */
  lemma ActualizarReadBack(f: seq<string>, upd: Especie, i: nat)
    requires AllUnbroken(f) && DecodeAll(f).Success? && i < |DecodeAll(f).value|
    requires Storable(Normalize(upd))
    ensures var after := DecodeAll(Render(DecodeAll(f).value[i := upd]));
      after.Success? && |after.value| == |DecodeAll(f).value| && after.value[i] == Normalize(upd) &&
      forall j :: 0 <= j < |after.value| && j != i ==> after.value[j] == DecodeAll(f).value[j]
  {
    var rs := DecodeAll(f).value;
    var written := rs[i := Normalize(upd)];
    DecodedAreStorable(f);
    UpdateStorable(rs, i, Normalize(upd));
    ToCsvLineNormalize(upd);
    RenderOfSameRows(rs[i := upd], written);
    RenderRoundTrip(written);
  }

  /**
   * `actualizar` keeps the keys unique: the new key matches the record it
   * replaces, so it matches no other key.
   */
  lemma ActualizarKeepsKeysUnique(rs: seq<Especie>, upd: Especie, i: nat)
    requires UniqueKeys(rs) && upd.nombreCientifico.Some?
    requires FirstMatch(rs, upd.nombreCientifico.value) == Some(i)
    ensures UniqueKeys(rs[i := upd])
  {
  }

  /** Appending the row of a storable record adds exactly that record at the end. */
  lemma AppendReadBack(f: seq<string>, e: Especie)
    requires f != [] && AllUnbroken(f) && DecodeAll(f).Success? && Storable(e)
    ensures DecodeAll(f + LinesOf(ToCsvLine(e))) == Success(DecodeAll(f).value + [e])
  {
    RowIsOneLine(e);
    DecodeToCsvLine(e);
    var line := ToCsvLine(e);
    assert (f + [line])[1..] == f[1..] + [line];
    assert (f[1..] + [line])[..|f| - 1] == f[1..];
    var d := DataLines(f);
    assert DataLines(f + [line]) == d + [line];
    assert (d + [line])[..|d|] == d;
  }

  /**
   * `registrar` keeps the keys unique when the new key is already trimmed:
   * the duplicate check then compares exactly the key that is written.
   */
  lemma RegistrarKeepsKeysUnique(rs: seq<Especie>, e: Especie)
    requires UniqueKeys(rs) && e.nombreCientifico.Some?
    requires Trim(e.nombreCientifico.value) == e.nombreCientifico.value
    requires FirstMatch(rs, Trim(e.nombreCientifico.value)).None?
    ensures UniqueKeys(rs + [e])
  {
    var t := rs + [e];
    forall i, j | 0 <= i < j < |t| && t[j].nombreCientifico.Some?
      ensures !KeyMatches(t[i], t[j].nombreCientifico.value)
    {
      if j == |rs| {
        assert t[i] == rs[i];
      } else {
        assert t[i] == rs[i] && t[j] == rs[j];
      }
    }
  }

  /**
   * The duplicate check of `registrar` compares the trimmed key while the
   * row keeps the key as given: a key with surrounding blanks, once stored,
   * no longer matches its own trimmed form, so registering the same record
   * twice succeeds twice and the file then holds the key twice.
   */
  lemma RegistrarAdmitsPaddedDuplicate(f: seq<string>, e: Especie)
    requires Storable(e) && Trim(e.nombreCientifico.value) != e.nombreCientifico.value
    requires f != [] && AllUnbroken(f) && DecodeAll(f) == Success([e])
    ensures FirstMatch(DecodeAll(f).value, Trim(e.nombreCientifico.value)).None?
    ensures DecodeAll(f + LinesOf(ToCsvLine(e))) == Success([e, e])
  {
    var k := e.nombreCientifico.value;
    TrimIsSlice(k);
    assert |Trim(k)| < |k|;
    assert !KeyMatches(e, Trim(k));
    AppendReadBack(f, e);
    assert [e] + [e] == [e, e];
  }
}

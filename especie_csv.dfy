/**
 * One species record and its CSV row: the quoting `q`, the writer
 * `toCsvLine`, the hand-written splitter `parseCsvLine` and `fromColumns`.
 */
module EspecieCsv {
  import opened Wrappers
  import opened Text
  import opened Numbers

  /** A Java `String` field: `None` is `null`. */
  type JString = Option<string>

  function OrEmpty(s: JString): string {
    if s.Some? then s.value else ""
  }

  /** A species: `nombreCientifico` is the case-insensitive key of the store. */
  datatype Especie = Especie(
    nombreCientifico: JString,
    nombreComun: JString,
    categoria: JString,
    cicloProduccion: Int32,
    humedadRequerida: DoubleText,
    luzRequerida: DoubleText,
    temperaturaOptima: DoubleText,
    precioVenta: DoubleText)

  /** The record the writer and reader agree on: every `null` string read back as "". */
  function Normalize(e: Especie): Especie {
    e.(nombreCientifico := Some(OrEmpty(e.nombreCientifico)),
       nombreComun := Some(OrEmpty(e.nombreComun)),
       categoria := Some(OrEmpty(e.categoria)))
  }

  /** The three string fields of a record. */
  function Texts(e: Especie): seq<string> {
    [OrEmpty(e.nombreCientifico), OrEmpty(e.nombreComun), OrEmpty(e.categoria)]
  }

  // ---------------------------------------------------------------- writing

  /** `s.replace("\"", "\"\"")`. */
  function Escape(s: string): string {
    if s == [] then []
    else (if s[0] == '"' then "\"\"" else [s[0]]) + Escape(s[1..])
  }

  /** `q`: every string field is quoted, with its quotes doubled; `null` is written as "". */
  function Q(s: JString): string {
    "\"" + Escape(OrEmpty(s)) + "\""
  }

  /** `String.join(",", fs)`. */
  function JoinComma(fs: seq<string>): string {
    if |fs| == 0 then ""
    else if |fs| == 1 then fs[0]
    else fs[0] + "," + JoinComma(fs[1..])
  }

  /** `toCsvLine`: three quoted strings, then the five numbers unquoted. */
  function ToCsvLine(e: Especie): string {
    JoinComma([Q(e.nombreCientifico), Q(e.nombreComun), Q(e.categoria),
               FormatInt(e.cicloProduccion),
               e.humedadRequerida, e.luzRequerida, e.temperaturaOptima, e.precioVenta])
  }

  // ---------------------------------------------------------------- reading

  /**
   * The columns `parseCsvLine` produces from the rest `rest` of a line, in
   * state `inQuotes`, with the current column `cur` and the finished
   * columns `cols`. Inside quotes a doubled quote is one literal quote and
   * a single quote closes the quoting; outside, a quote opens quoting and
   * a comma ends the column.
   */
  function Scan(rest: string, inQuotes: bool, cur: string, cols: seq<string>): seq<string>
    decreases |rest|
  {
    if rest == [] then cols + [cur]
    else if inQuotes then
      if rest[0] == '"' then
        if |rest| > 1 && rest[1] == '"' then Scan(rest[2..], true, cur + ['"'], cols)
        else Scan(rest[1..], false, cur, cols)
      else Scan(rest[1..], true, cur + [rest[0]], cols)
    else if rest[0] == '"' then Scan(rest[1..], true, cur, cols)
    else if rest[0] == ',' then Scan(rest[1..], false, "", cols + [cur])
    else Scan(rest[1..], false, cur + [rest[0]], cols)
  }

  /** The columns of a whole line. */
  function Split(line: string): seq<string> {
    Scan(line, false, "", [])
  }

  /** Number of '"' in `s`. */
  function QuoteCount(s: string): nat {
    if s == [] then 0 else QuoteCount(s[..|s| - 1]) + (if s[|s| - 1] == '"' then 1 else 0)
  }

  /** Number of commas in `s` preceded by an even number of quotes, i.e. outside quotes. */
  function SeparatorCount(s: string): nat {
    if s == [] then 0
    else SeparatorCount(s[..|s| - 1])
         + (if s[|s| - 1] == ',' && QuoteCount(s[..|s| - 1]) % 2 == 0 then 1 else 0)
  }

  /** The array doubling of `parseCsvLine`: a fresh array twice as long holding the old columns first. */
  method Grow(cols: array<string>) returns (nuevo: array<string>)
    ensures fresh(nuevo)
    ensures nuevo.Length == 2 * cols.Length
    ensures nuevo[..cols.Length] == cols[..]
  {
    nuevo := new string[2 * cols.Length](_ => "");
    for k := 0 to cols.Length
      invariant nuevo[..k] == cols[..k]
    {
      nuevo[k] := cols[k];
    }
  }

  /**
   * `parseCsvLine`: splits a line at the commas outside quotes, growing its
   * column array by doubling, then copies the columns into an exact array.
   */
  method ParseCsvLine(line: string) returns (out: array<string>)
    ensures fresh(out)
    ensures out[..] == Split(line)
    ensures out.Length == SeparatorCount(line) + 1
  {
    var cols := new string[16](_ => "");
    var count := 0;
    var sb: string := "";
    var inQuotes := false;
    var i := 0;
    while i < |line|
      invariant 0 <= i <= |line|
      invariant fresh(cols)
      invariant 0 <= count <= cols.Length && cols.Length > 0
      invariant Scan(line[i..], inQuotes, sb, cols[..count]) == Split(line)
    {
      var ch := line[i];
      ghost var done := cols[..count];
      assert line[i..][1..] == line[i + 1..];
      if inQuotes {
        if ch == '"' {
          if i + 1 < |line| && line[i + 1] == '"' {
            assert line[i..][2..] == line[i + 2..];
            sb := sb + ['"'];
            i := i + 2;
          } else {
            inQuotes := false;
            i := i + 1;
          }
        } else {
          sb := sb + [ch];
          i := i + 1;
        }
      } else {
        if ch == '"' {
          inQuotes := true;
          i := i + 1;
        } else if ch == ',' {
          assert Scan(line[i..], false, sb, done) == Scan(line[i + 1..], false, "", done + [sb]);
          if count == cols.Length {
            cols := Grow(cols);
          }
          cols[count] := sb;
          assert cols[..count + 1] == done + [sb];
          count := count + 1;
          sb := "";
          i := i + 1;
        } else {
          sb := sb + [ch];
          i := i + 1;
        }
      }
    }
    assert line[i..] == [];
    ghost var done := cols[..count];
    assert Split(line) == done + [sb];
    if count == cols.Length {
      cols := Grow(cols);
    }
    cols[count] := sb;
    assert cols[..count + 1] == done + [sb];
    count := count + 1;
    out := new string[count](_ => "");
    for k := 0 to count
      invariant cols[..count] == done + [sb]
      invariant out[..k] == cols[..k]
    {
      out[k] := cols[k];
    }
    assert out[..] == cols[..count];
    SplitLength(line);
  }

  datatype RowError = TooFewColumns(received: nat)

  /**
   * `fromColumns`: a row needs at least 8 columns; the first three are
   * copied as they are and the numbers are parsed leniently.
   */
  function FromColumns(c: seq<string>): (r: Result<Especie, RowError>)
    ensures r.Failure? <==> |c| < 8
    ensures r.Failure? ==> r.error.received == |c|
  {
    if |c| < 8 then Failure(TooFewColumns(|c|))
    else Success(Especie(Some(c[0]), Some(c[1]), Some(c[2]), ParseInt(c[3]),
                         ParseDouble(c[4]), ParseDouble(c[5]), ParseDouble(c[6]), ParseDouble(c[7])))
  }

  /** `fromColumns(parseCsvLine(line))`. */
  function DecodeLine(line: string): Result<Especie, RowError> {
    FromColumns(Split(line))
  }

  // ---------------------------------------------------------------- lemmas

  lemma {:induction false} ScanLength(line: string, i: nat, inQuotes: bool, cur: string, cols: seq<string>)
    requires i <= |line|
    requires inQuotes == (QuoteCount(line[..i]) % 2 == 1)
    ensures |Scan(line[i..], inQuotes, cur, cols)| + SeparatorCount(line[..i])
            == |cols| + 1 + SeparatorCount(line)
    decreases |line| - i
  {
    if i == |line| {
      assert line[..i] == line;
    } else {
      var c := line[i];
      assert line[i..][1..] == line[i + 1..];
      assert line[..i + 1][..i] == line[..i];
      if inQuotes && c == '"' && i + 1 < |line| && line[i + 1] == '"' {
        assert line[i..][2..] == line[i + 2..];
        assert line[..i + 2][..i + 1] == line[..i + 1];
        ScanLength(line, i + 2, true, cur + ['"'], cols);
      } else if inQuotes && c == '"' {
        ScanLength(line, i + 1, false, cur, cols);
      } else if inQuotes {
        ScanLength(line, i + 1, true, cur + [c], cols);
      } else if c == '"' {
        ScanLength(line, i + 1, true, cur, cols);
      } else if c == ',' {
        ScanLength(line, i + 1, false, "", cols + [cur]);
      } else {
        ScanLength(line, i + 1, false, cur + [c], cols);
      }
    }
  }

  /**
   * The splitter cuts exactly at the commas outside quotes (those preceded
   * by an even number of quotes), so a line has one column more than it
   * has such commas, and never fewer than one.
   */
  lemma SplitLength(line: string)
    ensures |Split(line)| == SeparatorCount(line) + 1
  {
    ScanLength(line, 0, false, "", []);
    assert line[0..] == line;
  }

  /** Reading a quoted field gives back the text that was quoted, whatever quotes or commas it holds. */
  lemma {:induction false} ScanEscaped(s: string, t: string, cur: string, cols: seq<string>)
    requires t == [] || t[0] != '"'
    ensures Scan(Escape(s) + "\"" + t, true, cur, cols) == Scan(t, false, cur + s, cols)
    decreases |s|
  {
    var rest := Escape(s) + "\"" + t;
    if s == [] {
      assert rest == "\"" + t;
      assert rest[1..] == t;
      assert cur + s == cur;
    } else if s[0] == '"' {
      assert rest == "\"\"" + (Escape(s[1..]) + "\"" + t);
      ScanEscaped(s[1..], t, cur + ['"'], cols);
      assert cur + ['"'] + s[1..] == cur + s;
    } else {
      assert rest == [s[0]] + (Escape(s[1..]) + "\"" + t);
      ScanEscaped(s[1..], t, cur + [s[0]], cols);
      assert cur + [s[0]] + s[1..] == cur + s;
    }
  }

  predicate IsPlain(p: string) {
    forall k :: 0 <= k < |p| ==> p[k] != ',' && p[k] != '"'
  }

  lemma {:induction false} ScanPlain(p: string, t: string, cur: string, cols: seq<string>)
    requires IsPlain(p)
    ensures Scan(p + t, false, cur, cols) == Scan(t, false, cur + p, cols)
    decreases |p|
  {
    if p == [] {
      assert p + t == t && cur + p == cur;
    } else {
      assert (p + t)[1..] == p[1..] + t;
      ScanPlain(p[1..], t, cur + [p[0]], cols);
      assert cur + [p[0]] + p[1..] == cur + p;
    }
  }

  /** A field as `toCsvLine` writes it: quoted (strings) or bare (numbers, never holding ',' or '"'). */
  datatype Cell = Quoted(text: string) | Bare(text: string)

  predicate WellFormed(cs: seq<Cell>) {
    forall k :: 0 <= k < |cs| ==> (cs[k].Bare? ==> IsPlain(cs[k].text))
  }

  function EncodeCell(c: Cell): string {
    if c.Quoted? then Q(Some(c.text)) else c.text
  }

  function EncodeCells(cs: seq<Cell>): (r: seq<string>)
    ensures |r| == |cs|
  {
    if cs == [] then [] else [EncodeCell(cs[0])] + EncodeCells(cs[1..])
  }

  function CellTexts(cs: seq<Cell>): (r: seq<string>)
    ensures |r| == |cs|
  {
    if cs == [] then [] else [cs[0].text] + CellTexts(cs[1..])
  }

  lemma {:induction false} CellsAt(cs: seq<Cell>, k: nat)
    requires k < |cs|
    ensures EncodeCells(cs)[k] == EncodeCell(cs[k]) && CellTexts(cs)[k] == cs[k].text
    decreases k
  {
    if k > 0 {
      CellsAt(cs[1..], k - 1);
    }
  }

  lemma ScanCell(c: Cell, t: string, cols: seq<string>)
    requires c.Bare? ==> IsPlain(c.text)
    requires t == [] || t[0] == ','
    ensures Scan(EncodeCell(c) + t, false, "", cols) == Scan(t, false, c.text, cols)
  {
    if c.Quoted? {
      var x := Escape(c.text) + "\"" + t;
      assert EncodeCell(c) + t == "\"" + x;
      assert ("\"" + x)[1..] == x;
      ScanEscaped(c.text, t, "", cols);
      assert "" + c.text == c.text;
    } else {
      ScanPlain(c.text, t, "", cols);
      assert "" + c.text == c.text;
    }
  }

  /** Splitting a joined row of well-formed cells returns the cells' texts. */
  lemma {:induction false} ScanJoined(cs: seq<Cell>, cols: seq<string>)
    requires |cs| >= 1 && WellFormed(cs)
    ensures Scan(JoinComma(EncodeCells(cs)), false, "", cols) == cols + CellTexts(cs)
    decreases |cs|
  {
    var fs := EncodeCells(cs);
    if |cs| == 1 {
      assert JoinComma(fs) == EncodeCell(cs[0]) + "";
      ScanCell(cs[0], "", cols);
    } else {
      assert fs[1..] == EncodeCells(cs[1..]);
      var tail := JoinComma(fs[1..]);
      assert JoinComma(fs) == EncodeCell(cs[0]) + ("," + tail);
      ScanCell(cs[0], "," + tail, cols);
      assert ("," + tail)[1..] == tail;
      assert WellFormed(cs[1..]) by {
        forall k | 0 <= k < |cs| - 1 ensures cs[1..][k] == cs[k + 1] { }
      }
      ScanJoined(cs[1..], cols + [cs[0].text]);
    }
  }

  /** `parseCsvLine(q(s))` is the single column `s` (or "" for `null`). */
  lemma SplitQuoted(s: JString)
    ensures Split(Q(s)) == [OrEmpty(s)]
  {
    var cs := [Quoted(OrEmpty(s))];
    ScanJoined(cs, []);
    assert JoinComma(EncodeCells(cs)) == Q(s);
  }

  /** The cells of the row `toCsvLine` writes for `e`. */
  function RowCells(e: Especie): seq<Cell> {
    [Quoted(OrEmpty(e.nombreCientifico)), Quoted(OrEmpty(e.nombreComun)), Quoted(OrEmpty(e.categoria)),
     Bare(FormatInt(e.cicloProduccion)),
     Bare(e.humedadRequerida), Bare(e.luzRequerida), Bare(e.temperaturaOptima), Bare(e.precioVenta)]
  }

  lemma NumberTextIsPlain(s: string)
    requires forall k :: 0 <= k < |s| ==> IsNumberChar(s[k])
    ensures IsPlain(s)
  {
  }

  /** No numeric cell of a row holds a ',' or a '"'. */
  lemma RowCellsWellFormed(e: Especie)
    ensures WellFormed(RowCells(e))
  {
    FormatIntChars(e.cicloProduccion);
    LiteralChars(e.humedadRequerida);
    LiteralChars(e.luzRequerida);
    LiteralChars(e.temperaturaOptima);
    LiteralChars(e.precioVenta);
    NumberTextIsPlain(FormatInt(e.cicloProduccion));
    NumberTextIsPlain(e.humedadRequerida);
    NumberTextIsPlain(e.luzRequerida);
    NumberTextIsPlain(e.temperaturaOptima);
    NumberTextIsPlain(e.precioVenta);
  }

  /** The encoded cells of a row are the fields `toCsvLine` joins; their texts are the values. */
  lemma RowCellsContents(e: Especie)
    ensures EncodeCells(RowCells(e)) == [Q(e.nombreCientifico), Q(e.nombreComun), Q(e.categoria),
      FormatInt(e.cicloProduccion), e.humedadRequerida, e.luzRequerida, e.temperaturaOptima, e.precioVenta]
    ensures CellTexts(RowCells(e)) == Texts(e) + [FormatInt(e.cicloProduccion),
      e.humedadRequerida, e.luzRequerida, e.temperaturaOptima, e.precioVenta]
  {
    var cs := RowCells(e);
    forall k | 0 <= k < 8 ensures EncodeCells(cs)[k] == EncodeCell(cs[k]) && CellTexts(cs)[k] == cs[k].text {
      CellsAt(cs, k);
    }
  }

  /**
   * The row written for `e` splits back into exactly 8 columns: its three
   * strings (`null` as ""), its cycle as written and its four `double` texts.
   */
  lemma SplitToCsvLine(e: Especie)
    ensures Split(ToCsvLine(e)) == Texts(e) + [FormatInt(e.cicloProduccion),
      e.humedadRequerida, e.luzRequerida, e.temperaturaOptima, e.precioVenta]
  {
    RowCellsWellFormed(e);
    RowCellsContents(e);
    ScanJoined(RowCells(e), []);
  }

  /** Round trip: reading back the row written for `e` gives `e`, with `null` strings as "". */
  lemma DecodeToCsvLine(e: Especie)
    ensures DecodeLine(ToCsvLine(e)) == Success(Normalize(e))
  {
    SplitToCsvLine(e);
    ParseIntOfFormatInt(e.cicloProduccion);
    ParseDoubleOfLiteral(e.humedadRequerida);
    ParseDoubleOfLiteral(e.luzRequerida);
    ParseDoubleOfLiteral(e.temperaturaOptima);
    ParseDoubleOfLiteral(e.precioVenta);
  }

  /** `toCsvLine` writes a `null` string exactly as it writes "". */
  lemma ToCsvLineNormalize(e: Especie)
    ensures ToCsvLine(Normalize(e)) == ToCsvLine(e)
  {
    assert Q(Normalize(e).nombreCientifico) == Q(e.nombreCientifico);
    assert Q(Normalize(e).nombreComun) == Q(e.nombreComun);
    assert Q(Normalize(e).categoria) == Q(e.categoria);
  }

  /** `fromColumns` reads the first 8 columns only: anything after them is ignored. */
  lemma FromColumnsIgnoresExtra(c: seq<string>, extra: seq<string>)
    requires |c| >= 8
    ensures FromColumns(c + extra) == FromColumns(c)
  {
  }

  /** A row whose cycle column has no digit (say "noventa") is read with cycle 0 instead of failing. */
  lemma NonNumericCycleIsZero(c: seq<string>)
    requires |c| >= 8 && forall k :: 0 <= k < |c[3]| ==> !IsDigit(c[3][k])
    ensures FromColumns(c).Success? && FromColumns(c).value.cicloProduccion == 0
  {
    ParseIntWithoutDigits(c[3]);
  }

  /** Every column of a line without line breaks is free of line breaks too. */
  lemma {:induction false} ScanUnbroken(rest: string, inQuotes: bool, cur: string, cols: seq<string>)
    requires NoBreaks(rest) && NoBreaks(cur)
    requires forall k :: 0 <= k < |cols| ==> NoBreaks(cols[k])
    ensures forall k :: 0 <= k < |Scan(rest, inQuotes, cur, cols)| ==> NoBreaks(Scan(rest, inQuotes, cur, cols)[k])
    decreases |rest|
  {
    if rest != [] {
      assert NoBreaks(rest[1..]);
      if inQuotes && rest[0] == '"' && |rest| > 1 && rest[1] == '"' {
        assert NoBreaks(rest[2..]);
        ScanUnbroken(rest[2..], true, cur + ['"'], cols);
      } else if inQuotes && rest[0] == '"' {
        ScanUnbroken(rest[1..], false, cur, cols);
      } else if inQuotes {
        ScanUnbroken(rest[1..], true, cur + [rest[0]], cols);
      } else if rest[0] == '"' {
        ScanUnbroken(rest[1..], true, cur, cols);
      } else if rest[0] == ',' {
        ScanUnbroken(rest[1..], false, "", cols + [cur]);
      } else {
        ScanUnbroken(rest[1..], false, cur + [rest[0]], cols);
      }
    }
  }
}

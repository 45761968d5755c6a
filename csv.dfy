/** The quoted-field splitter (SplitAndEscape) that turns override .csv text into rows of fields. */
module Csv {
  import opened Strings

  /** The splitter's state between two characters: whether a quoted region is open, the field
      being built, the fields of the current row, and the rows yielded so far. */
  datatype Scanner = Scanner(inQuote: bool, field: string, row: seq<string>, rows: seq<seq<string>>)

  const Start := Scanner(false, "", [], [])

  /** An unquoted newline: the pending field joins the row when the field or the row is
      non-empty, and the row is yielded even when it is empty. */
  function EndRow(st: Scanner): Scanner {
    var row := if st.field != "" || st.row != [] then st.row + [st.field] else st.row;
    Scanner(st.inQuote, "", [], st.rows + [row])
  }

  /** End of input: the pending field joins the row only if non-empty, and the row is yielded only if non-empty. */
  function Finish(st: Scanner): seq<seq<string>> {
    var row := if st.field != "" then st.row + [st.field] else st.row;
    if row != [] then st.rows + [row] else st.rows
  }

  /** How many characters one iteration of the splitter's loop consumes: two for a doubled
      quote inside a quoted region, otherwise one. */
  function Consumed(rest: string, inQuote: bool): nat
    requires rest != []
  {
    if inQuote && |rest| > 1 && rest[0] == '"' && rest[1] == '"' then 2 else 1
  }

  /** The state after one iteration of the splitter's loop on the input that remains. A carriage
      return changes nothing, quoted or not. */
  function Next(rest: string, st: Scanner): Scanner
    requires rest != []
  {
    var c := rest[0];
    if c == '\r' then st
    else if c == ',' && !st.inQuote then st.(row := st.row + [st.field], field := "")
    else if c == '\n' && !st.inQuote then EndRow(st)
    else if c == '"' then
      if !st.inQuote then st.(inQuote := true)
      else if |rest| > 1 && rest[1] == '"' then st.(field := st.field + "\"")
      else st.(inQuote := false)
    else st.(field := st.field + [c])
  }

  /** The rows the splitter yields on the input that remains, continuing from state `st`. */
  function Scan(rest: string, st: Scanner): seq<seq<string>>
    decreases |rest|
  {
    if rest == [] then Finish(st)
    else Scan(rest[Consumed(rest, st.inQuote)..], Next(rest, st))
  }

  /** The rows of a whole input. */
  function Rows(source: string): seq<seq<string>> {
    Scan(source, Start)
  }

  /** One iteration of the loop at position `i`, read off the characters at `i` and `i + 1`. The
      first ensures is index bookkeeping for the proof of the splitter's loop. */
  lemma ScanAt(s: string, i: nat, st: Scanner)
    requires i < |s|
    ensures s[i..][0] == s[i] && (i + 1 < |s| ==> s[i..][1] == s[i + 1]) && |s[i..]| == |s| - i
    ensures Scan(s[i..], st) == Scan(s[i + Consumed(s[i..], st.inQuote)..], Next(s[i..], st))
  {
    assert s[i..][Consumed(s[i..], st.inQuote)..] == s[i + Consumed(s[i..], st.inQuote)..];
  }

  /** SplitAndEscape: one forward pass over `source`. Each yielded row is returned as a value
      (the source reuses one list, but every caller copies a row before asking for the next). */
  method SplitAndEscape(source: string) returns (rows: seq<seq<string>>)
    ensures rows == Rows(source)
  {
    var field := "";
    var i := 0;
    var row: seq<string> := [];
    var limit := |source|;
    var inQuote := false;
    rows := [];
    while i < limit
      invariant 0 <= i <= limit
      invariant Scan(source[i..], Scanner(inQuote, field, row, rows)) == Rows(source)
    {
      ghost var st := Scanner(inQuote, field, row, rows);
      ghost var next := i + Consumed(source[i..], inQuote);
      ScanAt(source, i, st);
      if source[i] == '\r' {
      } else if source[i] == ',' && !inQuote {
        row := row + [field];
        field := "";
      } else if source[i] == '\n' && !inQuote {
        if |field| != 0 || |row| != 0 {
          row := row + [field];
          field := "";
        }
        rows := rows + [row];
        row := [];
      } else if source[i] == '"' {
        if !inQuote {
          inQuote := true;
        } else {
          if i + 1 < limit && source[i + 1] == '"' {
            field := field + "\"";
            i := i + 1;
          } else {
            inQuote := false;
          }
        }
      } else {
        field := field + [source[i]];
      }
      i := i + 1;
      assert i == next;
    }
    assert source[i..] == [];
    if |field| > 0 {
      row := row + [field];
    }
    if |row| > 0 {
      rows := rows + [row];
    }
  }

  // ---------------------------------------------------------------------------
  // Writing rows so that the splitter reads them back: every field quoted, every
  // quote doubled, every row ended by a newline.

  function Escape(f: string): string
    decreases |f|
  {
    if f == [] then []
    else (if f[0] == '"' then "\"\"" else [f[0]]) + Escape(f[1..])
  }

  function Quote(f: string): string {
    "\"" + Escape(f) + "\""
  }

  function EncodeFields(r: seq<string>): string
    requires r != []
    decreases |r|
  {
    Quote(r[0]) + (if |r| == 1 then "" else "," + EncodeFields(r[1..]))
  }

  function EncodeRow(r: seq<string>): string {
    (if r == [] then "" else EncodeFields(r)) + "\n"
  }

  function Encode(rows: seq<seq<string>>): string
    decreases |rows|
  {
    if rows == [] then "" else EncodeRow(rows[0]) + Encode(rows[1..])
  }

  predicate NoCarriageReturn(f: string) {
    forall k :: 0 <= k < |f| ==> f[k] != '\r'
  }

  predicate FieldsOk(r: seq<string>) {
    forall k :: 0 <= k < |r| ==> NoCarriageReturn(r[k])
  }

  /** Rows that survive a round trip: no field holds a carriage return (the splitter drops them),
      and no row is a single empty field (it reads back as an empty row). */
  predicate Encodable(rows: seq<seq<string>>) {
    forall j :: 0 <= j < |rows| ==> rows[j] != [""] && FieldsOk(rows[j])
  }

  lemma NoCarriageReturnTail(f: string)
    requires f != [] && NoCarriageReturn(f)
    ensures f[0] != '\r' && NoCarriageReturn(f[1..])
  {
    forall k | 0 <= k < |f[1..]| ensures f[1..][k] != '\r' { assert f[1..][k] == f[k + 1]; }
  }

  /** Inside a quoted region, the escape of a character other than a carriage return adds
      that character to the field. */
  lemma EscapedStep(f: string, q: string, st: Scanner)
    requires st.inQuote && f != [] && f[0] != '\r'
    ensures Scan(Escape(f) + "\"" + q, st) == Scan(Escape(f[1..]) + "\"" + q, st.(field := st.field + [f[0]]))
  {
    var rest := Escape(f) + "\"" + q;
    var tail := Escape(f[1..]) + "\"" + q;
    if f[0] == '"' {
      assert rest == "\"\"" + tail;
      assert rest[2..] == tail;
    } else {
      assert rest == [f[0]] + tail;
      assert rest[1..] == tail;
    }
  }

  /** The closing quote of a quoted region, when what follows does not start with a quote. */
  lemma ClosingQuoteStep(q: string, st: Scanner)
    requires st.inQuote && (q == [] || q[0] != '"')
    ensures Scan("\"" + q, st) == Scan(q, st.(inQuote := false))
  {
    assert ("\"" + q)[1..] == q;
  }

  /** Inside a quoted region, an escaped field followed by the closing quote adds the field's
      text; what follows must not start with a quote, or the closing quote would read as doubled. */
  lemma {:induction false} ScanEscaped(f: string, q: string, st: Scanner)
    requires st.inQuote && NoCarriageReturn(f)
    requires q == [] || q[0] != '"'
    ensures Scan(Escape(f) + "\"" + q, st) == Scan(q, st.(inQuote := false, field := st.field + f))
    decreases |f|
  {
    if f == [] {
      assert Escape(f) + "\"" + q == "\"" + q;
      ClosingQuoteStep(q, st);
      assert st.field + f == st.field;
    } else {
      NoCarriageReturnTail(f);
      EscapedStep(f, q, st);
      var st' := st.(field := st.field + [f[0]]);
      ScanEscaped(f[1..], q, st');
      assert f == [f[0]] + f[1..];
      assert st'.field + f[1..] == st.field + f;
    }
  }

  /** Outside quotes, a quoted field adds its text to the field being built. */
  lemma ScanQuote(f: string, q: string, st: Scanner)
    requires !st.inQuote && NoCarriageReturn(f)
    requires q == [] || q[0] != '"'
    ensures Scan(Quote(f) + q, st) == Scan(q, st.(field := st.field + f))
  {
    var rest := Quote(f) + q;
    assert rest == "\"" + (Escape(f) + "\"" + q);
    assert rest[1..] == Escape(f) + "\"" + q;
    ScanEscaped(f, q, st.(inQuote := true));
  }

  /** Outside quotes, a comma closes the pending field and a newline closes the row. */
  lemma SeparatorStep(c: char, q: string, st: Scanner)
    requires !st.inQuote && (c == ',' || c == '\n')
    ensures Scan([c] + q, st) ==
      Scan(q, if c == ',' then st.(row := st.row + [st.field], field := "") else EndRow(st))
  {
    assert ([c] + q)[1..] == q;
  }

  /** A quoted field and the comma after it: the field joins the row. */
  lemma FieldThenComma(f: string, tail: string, st: Scanner)
    requires !st.inQuote && st.field == "" && NoCarriageReturn(f)
    ensures Scan(Quote(f) + ("," + tail), st) == Scan(tail, st.(row := st.row + [f], field := ""))
  {
    ScanQuote(f, "," + tail, st);
    assert "" + f == f;
    SeparatorStep(',', tail, st.(field := f));
  }

  /** Writing a row of several fields: the first field, a comma, then the others. */
  lemma EncodeFieldsCons(r: seq<string>, q: string)
    requires |r| > 1
    ensures EncodeFields(r) + q == Quote(r[0]) + ("," + (EncodeFields(r[1..]) + q))
  {
    var rest := EncodeFields(r[1..]);
    assert EncodeFields(r) == Quote(r[0]) + ("," + rest);
    Associative(Quote(r[0]), "," + rest, q);
    Associative(",", rest, q);
  }

  lemma FieldsOkTail(r: seq<string>)
    requires r != [] && FieldsOk(r)
    ensures NoCarriageReturn(r[0]) && FieldsOk(r[1..])
  {
    forall k | 0 <= k < |r[1..]| ensures NoCarriageReturn(r[1..][k]) { assert r[1..][k] == r[k + 1]; }
  }

  /** The fields of a non-empty row, written out: all but the last field join the row, and the
      last one is left pending. */
  lemma {:induction false} ScanFields(r: seq<string>, q: string, st: Scanner)
    requires r != [] && !st.inQuote && st.field == ""
    requires FieldsOk(r)
    requires q == [] || q[0] != '"'
    ensures Scan(EncodeFields(r) + q, st) == Scan(q, st.(row := st.row + r[..|r| - 1], field := r[|r| - 1]))
    decreases |r|
  {
    if |r| == 1 {
      assert NoCarriageReturn(r[0]);
      assert EncodeFields(r) == Quote(r[0]);
      ScanQuote(r[0], q, st);
      assert "" + r[0] == r[0];
      assert st.row + r[..0] == st.row;
    } else {
      EncodeFieldsCons(r, q);
      FieldsOkTail(r);
      FieldThenComma(r[0], EncodeFields(r[1..]) + q, st);
      var st' := st.(row := st.row + [r[0]], field := "");
      ScanFields(r[1..], q, st');
      assert st'.row + r[1..][..|r[1..]| - 1] == st.row + r[..|r| - 1];
    }
  }

  /** One written row is read back as exactly that row. */
  lemma ScanRow(r: seq<string>, q: string, acc: seq<seq<string>>)
    requires r != [""] && FieldsOk(r)
    ensures Scan(EncodeRow(r) + q, Scanner(false, "", [], acc)) == Scan(q, Scanner(false, "", [], acc + [r]))
  {
    var st := Scanner(false, "", [], acc);
    if r == [] {
      assert EncodeRow(r) + q == "\n" + q;
      SeparatorStep('\n', q, st);
      assert EndRow(st) == Scanner(false, "", [], acc + [r]);
    } else {
      assert EncodeRow(r) + q == EncodeFields(r) + ("\n" + q);
      ScanFields(r, "\n" + q, st);
      SeparatorStep('\n', q, st.(row := st.row + r[..|r| - 1], field := r[|r| - 1]));
      EndRowOfLastField(r, acc);
    }
  }

  /** The newline after the last field yields the whole row. */
  lemma EndRowOfLastField(r: seq<string>, acc: seq<seq<string>>)
    requires r != [] && r != [""]
    ensures EndRow(Scanner(false, r[|r| - 1], [] + r[..|r| - 1], acc)) == Scanner(false, "", [], acc + [r])
  {
    assert [] + r[..|r| - 1] == r[..|r| - 1];
    assert r[..|r| - 1] + [r[|r| - 1]] == r;
    assert |r| == 1 ==> r[0] != "";
  }

  /** The rows after the first are encodable when the whole list is. */
  lemma EncodableTail(rows: seq<seq<string>>)
    requires rows != [] && Encodable(rows)
    ensures rows[0] != [""] && FieldsOk(rows[0]) && Encodable(rows[1..])
  {
    forall j | 0 <= j < |rows[1..]| ensures rows[1..][j] != [""] && FieldsOk(rows[1..][j]) {
      assert rows[1..][j] == rows[j + 1];
    }
  }

  lemma AppendCons(acc: seq<seq<string>>, rows: seq<seq<string>>)
    requires rows != []
    ensures acc + [rows[0]] + rows[1..] == acc + rows
  {
  }

  lemma {:induction false} ScanEncoded(rows: seq<seq<string>>, acc: seq<seq<string>>)
    requires Encodable(rows)
    ensures Scan(Encode(rows), Scanner(false, "", [], acc)) == acc + rows
    decreases |rows|
  {
    if rows == [] {
      assert acc + rows == acc;
    } else {
      EncodableTail(rows);
      AppendCons(acc, rows);
      ScanRow(rows[0], Encode(rows[1..]), acc);
      ScanEncoded(rows[1..], acc + [rows[0]]);
    }
  }

  /** Round trip: the splitter reads back every list of rows written by Encode, provided no
      field holds a carriage return and no row is a single empty field. */
  lemma RoundTrip(rows: seq<seq<string>>)
    requires Encodable(rows)
    ensures Rows(Encode(rows)) == rows
  {
    ScanEncoded(rows, []);
    assert [] + rows == rows;
  }

  /** One loop iteration at position `i` of `s`, taken from a state whose successor is known. */
  lemma Advance(s: string, i: nat, st: Scanner, j: nat, st': Scanner)
    requires i < j <= |s| && Consumed(s[i..], st.inQuote) == j - i && Next(s[i..], st) == st'
    ensures Scan(s[i..], st) == Scan(s[j..], st')
  {
    assert s[i..][j - i..] == s[j..];
  }

  /** A carriage return is dropped in every state, inside a quoted region or not: the scan goes
      on from the same state. */
  lemma CarriageReturnStep(q: string, st: Scanner)
    ensures Scan("\r" + q, st) == Scan(q, st)
  {
  }

  /** A character with no role in the current state is field text. */
  lemma TextStep(c: char, q: string, st: Scanner)
    requires c != '\r' && c != '"' && (st.inQuote || (c != ',' && c != '\n'))
    ensures Scan([c] + q, st) == Scan(q, st.(field := st.field + [c]))
  {
    assert ([c] + q)[1..] == q;
  }

  /** A plain one-character field and a comma open a row holding that field. */
  lemma PlainFieldThenComma(x: char, q: string)
    requires x != '\r' && x != '"' && x != ',' && x != '\n'
    ensures Scan([x] + ([','] + q), Start) == Scan(q, Scanner(false, "", [[x]], []))
  {
    TextStep(x, [','] + q, Start);
    assert "" + [x] == [x];
    SeparatorStep(',', q, Scanner(false, [x], [], []));
    assert [] + [[x]] == [[x]];
  }

  /** A quoted field, a comma and a plain one-character field end the row. */
  lemma QuotedThenPlainField(f: string, z: char, row: seq<string>)
    requires z != '\r' && z != '"' && z != ',' && z != '\n'
    requires NoCarriageReturn(f)
    ensures Scan(Quote(f) + ([','] + [z]), Scanner(false, "", row, [])) == [row + [f, [z]]]
  {
    ScanQuote(f, [','] + [z], Scanner(false, "", row, []));
    assert "" + f == f;
    SeparatorStep(',', [z], Scanner(false, f, row, []));
    assert [z] == [z] + [];
    TextStep(z, [], Scanner(false, "", row + [f], []));
    assert "" + [z] == [z];
    assert (row + [f]) + [[z]] == row + [f, [z]];
  }

  /** A quoted field between two plain one-character fields is one field, whatever
      commas and newlines it holds. */
  lemma QuotedMiddleField(x: char, f: string, z: char)
    requires x != '\r' && x != '"' && x != ',' && x != '\n'
    requires z != '\r' && z != '"' && z != ',' && z != '\n'
    requires NoCarriageReturn(f)
    ensures Rows([x] + ([','] + (Quote(f) + ([','] + [z])))) == [[[x], f, [z]]]
  {
    PlainFieldThenComma(x, Quote(f) + ([','] + [z]));
    QuotedThenPlainField(f, z, [[x]]);
    assert [[x]] + [f, [z]] == [[x], f, [z]];
  }

  /** A quoted region keeps its comma as field text. */
  lemma QuotedCommaExample()
    ensures Rows("a,\"b,c\",d") == [["a", "b,c", "d"]]
  {
    QuotedMiddleField('a', "b,c", 'd');
    assert Quote("b,c") == "\"b,c\"";
    assert ['a'] + ([','] + (Quote("b,c") + ([','] + ['d']))) == "a,\"b,c\",d";
  }

  /** A doubled quote inside a quoted region is one literal quote. */
  lemma DoubledQuoteExample()
    ensures Rows("\"x\"\"y\"") == [["x\"y"]]
  {
    var s := "\"x\"\"y\"";
    assert s[0..] == s;
    Advance(s, 0, Start, 1, Scanner(true, "", [], []));
    Advance(s, 1, Scanner(true, "", [], []), 2, Scanner(true, "x", [], []));
    Advance(s, 2, Scanner(true, "x", [], []), 4, Scanner(true, "x\"", [], []));
    Advance(s, 4, Scanner(true, "x\"", [], []), 5, Scanner(true, "x\"y", [], []));
    Advance(s, 5, Scanner(true, "x\"y", [], []), 6, Scanner(false, "x\"y", [], []));
    assert s[6..] == [];
    assert [] + ["x\"y"] == ["x\"y"];
  }

  /** Empty input gives no rows, and a trailing separator leaves no empty last field. */
  lemma EmptyAndTrailingExamples()
    ensures Rows("") == []
    ensures Rows("a,") == [["a"]]
  {
    var s := "a,";
    assert s[0..] == s;
    Advance(s, 0, Start, 1, Scanner(false, "a", [], []));
    Advance(s, 1, Scanner(false, "a", [], []), 2, Scanner(false, "", ["a"], []));
    assert s[2..] == [];
    assert Finish(Scanner(false, "", ["a"], [])) == [["a"]];
  }

  /** A lone separator gives one empty field; followed by a newline it gives two. */
  lemma LoneSeparatorExamples()
    ensures Rows(",") == [[""]]
    ensures Rows(",\n") == [["", ""]]
  {
    assert ","[0..] == ",";
    Advance(",", 0, Start, 1, Scanner(false, "", [""], []));
    assert ","[1..] == [];
    var s := ",\n";
    assert s[0..] == s;
    Advance(s, 0, Start, 1, Scanner(false, "", [""], []));
    assert [""] + [""] == ["", ""];
    Advance(s, 1, Scanner(false, "", [""], []), 2, Scanner(false, "", [], [["", ""]]));
    assert s[2..] == [];
    assert Finish(Scanner(false, "", [], [["", ""]])) == [["", ""]];
  }

  /** Every unquoted newline yields a row, even an empty one. */
  lemma EmptyLinesExample()
    ensures Rows("\n\n") == [[], []]
  {
    var s := "\n\n";
    var none: seq<seq<string>> := [];
    var empty: seq<string> := [];
    assert none + [empty] == [empty];
    assert s[0..] == s;
    Advance(s, 0, Start, 1, Scanner(false, "", [], [empty]));
    assert [empty] + [empty] == [empty, empty];
    Advance(s, 1, Scanner(false, "", [], [empty]), 2, Scanner(false, "", [], [empty, empty]));
    assert s[2..] == [];
    assert Finish(Scanner(false, "", [], [empty, empty])) == [empty, empty];
  }

  /** A carriage return is dropped, so a CR LF line end acts as a newline. */
  lemma CrLfExample()
    ensures Rows("a\r\nb") == [["a"], ["b"]]
  {
    var t := "a\r\nb";
    assert t[0..] == t;
    Advance(t, 0, Start, 1, Scanner(false, "a", [], []));
    Advance(t, 1, Scanner(false, "a", [], []), 2, Scanner(false, "a", [], []));
    assert [] + ["a"] == ["a"];
    Advance(t, 2, Scanner(false, "a", [], []), 3, Scanner(false, "", [], [["a"]]));
    Advance(t, 3, Scanner(false, "", [], [["a"]]), 4, Scanner(false, "b", [], [["a"]]));
    assert t[4..] == [];
    assert [] + ["b"] == ["b"];
    assert [["a"]] + [["b"]] == [["a"], ["b"]];
    assert Finish(Scanner(false, "b", [], [["a"]])) == [["a"], ["b"]];
  }

  /** A newline inside a quoted region is field text. */
  lemma QuotedNewlineExample()
    ensures Rows("\"a\nb\"") == [["a\nb"]]
  {
    var s := "\"a\nb\"";
    assert s[0..] == s;
    Advance(s, 0, Start, 1, Scanner(true, "", [], []));
    Advance(s, 1, Scanner(true, "", [], []), 2, Scanner(true, "a", [], []));
    Advance(s, 2, Scanner(true, "a", [], []), 3, Scanner(true, "a\n", [], []));
    Advance(s, 3, Scanner(true, "a\n", [], []), 4, Scanner(true, "a\nb", [], []));
    Advance(s, 4, Scanner(true, "a\nb", [], []), 5, Scanner(false, "a\nb", [], []));
    assert s[5..] == [];
    assert [] + ["a\nb"] == ["a\nb"];
  }

  /** A carriage return strictly inside a quoted field is dropped from the field's text. */
  lemma QuotedCarriageReturnExample()
    ensures Rows("\"a\rb\"") == [["ab"]]
  {
    var s := "\"a\rb\"";
    assert s[0..] == s;
    Advance(s, 0, Start, 1, Scanner(true, "", [], []));
    Advance(s, 1, Scanner(true, "", [], []), 2, Scanner(true, "a", [], []));
    Advance(s, 2, Scanner(true, "a", [], []), 3, Scanner(true, "a", [], []));
    Advance(s, 3, Scanner(true, "a", [], []), 4, Scanner(true, "ab", [], []));
    Advance(s, 4, Scanner(true, "ab", [], []), 5, Scanner(false, "ab", [], []));
    assert s[5..] == [];
    assert [] + ["ab"] == ["ab"];
  }

  /** A carriage return between two quoted pieces is dropped but still separates them, so they
      do not form a doubled quote: the text differs from the same input without it. */
  lemma CarriageReturnBetweenQuotes()
    ensures Rows("\"a\"\r\"b\"") == [["ab"]]
  {
    var s := "\"a\"\r\"b\"";
    assert s[0..] == s;
    Advance(s, 0, Start, 1, Scanner(true, "", [], []));
    Advance(s, 1, Scanner(true, "", [], []), 2, Scanner(true, "a", [], []));
    Advance(s, 2, Scanner(true, "a", [], []), 3, Scanner(false, "a", [], []));
    Advance(s, 3, Scanner(false, "a", [], []), 4, Scanner(false, "a", [], []));
    Advance(s, 4, Scanner(false, "a", [], []), 5, Scanner(true, "a", [], []));
    Advance(s, 5, Scanner(true, "a", [], []), 6, Scanner(true, "ab", [], []));
    Advance(s, 6, Scanner(true, "ab", [], []), 7, Scanner(false, "ab", [], []));
    assert s[7..] == [];
    assert [] + ["ab"] == ["ab"];
    assert Finish(Scanner(false, "ab", [], [])) == [["ab"]];
  }

  /** The same input without the carriage return has a doubled quote. */
  lemma DoubledQuoteBetweenPieces()
    ensures Rows("\"a\"\"b\"") == [["a\"b"]]
  {
    var t := "\"a\"\"b\"";
    assert t[0..] == t;
    Advance(t, 0, Start, 1, Scanner(true, "", [], []));
    Advance(t, 1, Scanner(true, "", [], []), 2, Scanner(true, "a", [], []));
    Advance(t, 2, Scanner(true, "a", [], []), 4, Scanner(true, "a\"", [], []));
    Advance(t, 4, Scanner(true, "a\"", [], []), 5, Scanner(true, "a\"b", [], []));
    Advance(t, 5, Scanner(true, "a\"b", [], []), 6, Scanner(false, "a\"b", [], []));
    assert t[6..] == [];
    assert [] + ["a\"b"] == ["a\"b"];
    assert Finish(Scanner(false, "a\"b", [], [])) == [["a\"b"]];
  }
}

/** A reader for the CSV records the transcript builder writes: cells are
    separated by commas outside quotation marks, a quotation mark switches
    quoting on or off and is not part of the cell, and a newline outside
    quotation marks ends the record. It serves as the reference against
    which the written rows are read back. */
module CsvReader {
  import opened PyText

  /** A cell that needs no quoting: no separator, quotation mark or line end. */
  predicate Plain(s: string) {
    ',' !in s && '"' !in s && '\n' !in s
  }

  /** Reads the rest `s` of a record: `quoted` says whether a quotation is
      open, `cell` is the cell read so far and `done` the cells before it. */
  function ReadCells(s: string, quoted: bool, cell: string, done: seq<string>): (cells: seq<string>)
    ensures |cells| > |done| && cells[..|done|] == done
    decreases |s|
  {
    if s == [] then done + [cell]
    else if s[0] == '"' then ReadCells(s[1..], !quoted, cell, done)
    else if s[0] == ',' && !quoted then
      var next := ReadCells(s[1..], false, "", done + [cell]);
      assert next[..|done|] == (done + [cell])[..|done|];
      next
    else if s[0] == '\n' && !quoted then done + [cell]
    else ReadCells(s[1..], quoted, cell + [s[0]], done)
  }

  /** The cells of one record. */
  function ReadRecord(s: string): (cells: seq<string>)
    ensures |cells| >= 1
  {
    ReadCells(s, false, "", [])
  }

  /** Characters that neither open nor close a quotation, nor (outside one)
      end a cell or the record, are copied into the current cell. */
  lemma {:induction false} ReadPlain(x: string, s: string, quoted: bool, cell: string, done: seq<string>)
    requires '"' !in x
    requires !quoted ==> ',' !in x && '\n' !in x
    ensures ReadCells(x + s, quoted, cell, done) == ReadCells(s, quoted, cell + x, done)
    decreases |x|
  {
    if x == [] {
      assert x + s == s;
      assert cell + x == cell;
    } else {
      assert (x + s)[0] == x[0] && (x + s)[1..] == x[1..] + s;
      ReadPlain(x[1..], s, quoted, cell + [x[0]], done);
      assert cell + [x[0]] + x[1..] == cell + x;
    }
  }

  /** A comma outside quotation marks closes the current cell. */
  lemma ReadComma(s: string, cell: string, done: seq<string>)
    ensures ReadCells([','] + s, false, cell, done) == ReadCells(s, false, "", done + [cell])
  {
    assert ([','] + s)[1..] == s;
  }

  /** A quoted cell is read without its quotation marks, commas and line
      ends inside it included. */
  lemma ReadQuoted(text: string, s: string, cell: string, done: seq<string>)
    requires '"' !in text
    ensures ReadCells("\"" + text + "\"" + s, false, cell, done) == ReadCells(s, false, cell + text, done)
  {
    var rest := text + ("\"" + s);
    assert "\"" + text + "\"" + s == "\"" + rest;
    assert ("\"" + rest)[1..] == rest;
    ReadPlain(text, "\"" + s, true, cell, done);
    assert ("\"" + s)[1..] == s;
  }

  /** Plain cells joined with commas and ended by a newline read back as
      those cells. */
  lemma {:induction false} ReadJoined(xs: seq<string>, done: seq<string>)
    requires xs != []
    requires forall k :: 0 <= k < |xs| ==> Plain(xs[k])
    ensures ReadCells(Join(xs, ',') + "\n", false, "", done) == done + xs
    decreases |xs|
  {
    if |xs| == 1 {
      ReadPlain(xs[0], "\n", false, "", done);
      assert "" + xs[0] == xs[0];
      assert ReadCells("\n", false, xs[0], done) == done + [xs[0]];
    } else {
      var tail := Join(xs[1..], ',');
      assert Join(xs, ',') + "\n" == xs[0] + ([','] + (tail + "\n"));
      ReadPlain(xs[0], [','] + (tail + "\n"), false, "", done);
      assert "" + xs[0] == xs[0];
      ReadComma(tail + "\n", xs[0], done);
      ReadJoined(xs[1..], done + [xs[0]]);
      AppendAssoc(done, [xs[0]], xs[1..]);
      assert [xs[0]] + xs[1..] == xs;
    }
  }

  /** A run of cells with no quotation mark or line end, followed by a
      comma, reads as the pieces between its commas. */
  lemma {:induction false} ReadSplit(x: string, s: string, done: seq<string>)
    requires '"' !in x && '\n' !in x
    ensures ReadCells(x + [','] + s, false, "", done) == ReadCells(s, false, "", done + Split(x, ','))
    decreases |x|
  {
    if ',' !in x {
      assert x + [','] + s == x + ([','] + s);
      ReadPlain(x, [','] + s, false, "", done);
      assert "" + x == x;
      ReadComma(s, x, done);
    } else {
      var i := FirstIndex(x, ',');
      var head, tail := x[..i], x[i + 1..];
      assert x == head + [','] + tail;
      assert x + [','] + s == head + ([','] + (tail + [','] + s));
      ReadPlain(head, [','] + (tail + [','] + s), false, "", done);
      assert "" + head == head;
      ReadComma(tail + [','] + s, head, done);
      ReadSplit(tail, s, done + [head]);
      SplitFirst(x, ',');
      AppendAssoc(done, [head], Split(tail, ','));
    }
  }

  /** Three plain cells, each followed by a comma, read as those cells. */
  lemma ReadThreePlain(a: string, b: string, c: string, s: string)
    requires Plain(a) && Plain(b) && Plain(c)
    ensures ReadCells(a + ([','] + (b + ([','] + (c + ([','] + s))))), false, "", [])
            == ReadCells(s, false, "", [a, b, c])
  {
    var s2 := c + ([','] + s);
    var s1 := b + ([','] + s2);
    assert "" + a == a && "" + b == b && "" + c == c;
    ReadPlain(a, [','] + s1, false, "", []);
    ReadComma(s1, a, []);
    assert [] + [a] == [a];
    ReadPlain(b, [','] + s2, false, "", [a]);
    ReadComma(s2, b, [a]);
    assert [a] + [b] == [a, b];
    ReadPlain(c, [','] + s, false, "", [a, b]);
    ReadComma(s, c, [a, b]);
    assert [a, b] + [c] == [a, b, c];
  }

  /** Two plain cells, each followed by a comma, read as those cells. */
  lemma ReadTwoPlain(a: string, b: string, s: string)
    requires Plain(a) && Plain(b)
    ensures ReadCells(a + ([','] + (b + ([','] + s))), false, "", []) == ReadCells(s, false, "", [a, b])
  {
    var s1 := b + ([','] + s);
    assert "" + a == a && "" + b == b;
    ReadPlain(a, [','] + s1, false, "", []);
    ReadComma(s1, a, []);
    assert [] + [a] == [a];
    ReadPlain(b, [','] + s, false, "", [a]);
    ReadComma(s, b, [a]);
    assert [a] + [b] == [a, b];
  }

  /** Unquoted comma-separated pieces, a comma, then a quoted last cell and
      the line end: the pieces, then the quoted text. */
  lemma ReadSplitQuoted(x: string, text: string, done: seq<string>)
    requires '"' !in x && '\n' !in x && '"' !in text
    ensures ReadCells(x + [','] + ("\"" + text + "\"" + "\n"), false, "", done)
            == done + Split(x, ',') + [text]
  {
    var pieces := done + Split(x, ',');
    ReadSplit(x, "\"" + text + "\"" + "\n", done);
    ReadQuoted(text, "\n", "", pieces);
    assert "" + text == text;
    assert ReadCells("\n", false, text, pieces) == pieces + [text];
  }

  /** Two plain cells, then two runs of unquoted comma-separated pieces,
      then a quoted last cell and the line end. */
  lemma ReadTwoPlainTwoSplit(a: string, b: string, x: string, y: string, text: string)
    requires Plain(a) && Plain(b)
    requires '"' !in x && '\n' !in x && '"' !in y && '\n' !in y && '"' !in text
    ensures ReadCells(a + ([','] + (b + ([','] + (x + ([','] + (y + [','] + ("\"" + text + "\"" + "\n"))))))), false, "", [])
            == [a, b] + Split(x, ',') + Split(y, ',') + [text]
  {
    var rest := y + [','] + ("\"" + text + "\"" + "\n");
    ReadTwoPlain(a, b, x + ([','] + rest));
    assert x + ([','] + rest) == x + [','] + rest;
    ReadSplit(x, rest, [a, b]);
    ReadSplitQuoted(y, text, [a, b] + Split(x, ','));
  }

  lemma AppendAssoc<T>(a: seq<T>, b: seq<T>, c: seq<T>)
    ensures a + b + c == a + (b + c)
  {
  }
}

/** The user tables of query_users and query_users_by_city in server.py: a
    header line and one ` | `-separated line per row the query returned. */
module UsersTable {
  import opened Text

  /** One row of `SELECT * FROM users`: id, name, age and city, each as the
      text str() gives for the stored value. */
  datatype Row = Row(id: string, name: string, age: string, city: string)

  const HeaderCells: string := "ID | 姓名 | 年龄 | 城市"
  const Header: string := HeaderCells + "\n"
  const NoUsersPrefix: string := "没有找到城市为 "
  const NoUsersSuffix: string := " 的用户"

  function Cells(r: Row): string {
    r.id + " | " + r.name + " | " + r.age + " | " + r.city
  }

  function RowLine(r: Row): string {
    Cells(r) + "\n"
  }

  /** The table for `rows`: what the `+=` loop builds. */
  function Table(rows: seq<Row>): string {
    Header + ConcatMap(rows, RowLine)
  }

  /** The rendering loop shared by both queries. */
  method RenderTable(rows: seq<Row>) returns (output: string)
    ensures output == Table(rows)
  {
    output := Header;
    for i := 0 to |rows|
      invariant output == Header + ConcatMap(rows[..i], RowLine)
    {
      assert rows[..i + 1][..i] == rows[..i];
      var row := rows[i];
      output := output + row.id + " | " + row.name + " | " + row.age + " | " + row.city + "\n";
    }
    assert rows[..|rows|] == rows;
  }

  /** query_users once `SELECT * FROM users` has returned `rows`. */
  method QueryUsers(rows: seq<Row>) returns (output: string)
    ensures output == Table(rows)
  {
    output := RenderTable(rows);
  }

  function NoUsersText(city: string): (r: string)
    ensures HasAt(r, |NoUsersPrefix|, city)
  {
    InfixAt(NoUsersPrefix, city, NoUsersSuffix);
    NoUsersPrefix + city + NoUsersSuffix
  }

  /** query_users_by_city once the query for `city` has returned `rows`: the
      not-found text, which names the city, exactly when there are no rows. */
  method QueryUsersByCity(city: string, rows: seq<Row>) returns (output: string)
    ensures output == NoUsersText(city) <==> rows == []
    ensures rows != [] ==> output == Table(rows)
  {
    if rows == [] {
      return NoUsersText(city);
    }
    output := RenderTable(rows);
    TableStartsWithHeader(rows);
    assert output[0] != NoUsersText(city)[0];
  }

  // ---- properties ----

  lemma {:induction false} TableStartsWithHeader(rows: seq<Row>)
    ensures HasAt(Table(rows), 0, Header) && Table(rows)[0] == 'I'
  {
    InfixAt("", Header, ConcatMap(rows, RowLine));
    assert "" + Header + ConcatMap(rows, RowLine) == Table(rows);
  }

  /** The table splits into the header line, one line per row in row order,
      and the empty piece after the last line break, when no cell holds a
      line break. */
  lemma {:induction false} TableLines(rows: seq<Row>)
    requires forall i :: 0 <= i < |rows| ==> '\n' !in Cells(rows[i])
    ensures Split(Table(rows), '\n') ==
      [HeaderCells] + seq(|rows|, i requires 0 <= i < |rows| => Cells(rows[i])) + [""]
  {
    SplitTerminatedLines(rows, RowLine, Cells);
    var body := ConcatMap(rows, RowLine);
    assert Table(rows) == HeaderCells + ['\n'] + body;
    SplitPiece(HeaderCells, body, '\n');
  }

  /** A row's line reads back as its four cells when no cell holds `|`. */
  lemma {:induction false} CellsSplit(r: Row)
    requires '|' !in r.id && '|' !in r.name && '|' !in r.age && '|' !in r.city
    ensures Split(Cells(r), '|') == [r.id + " ", " " + r.name + " ", " " + r.age + " ", " " + r.city]
  {
    var xs := [r.id + " ", " " + r.name + " ", " " + r.age + " ", " " + r.city];
    assert Join("|", xs[3..]) == xs[3];
    assert Join("|", xs[2..]) == xs[2] + "|" + xs[3];
    assert Join("|", xs[1..]) == xs[1] + "|" + (xs[2] + "|" + xs[3]);
    assert Join("|", xs) == Cells(r);
    SplitJoin(xs, '|');
  }
}

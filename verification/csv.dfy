/**
 `generateCSV`: the export of all assignments as comma-separated text, one
 header line then one line per assignment. Fields are written as they are:
 nothing is quoted or escaped.
 */
module Csv {
  import opened Wrappers
  import opened Text
  import opened JsValues

  /** One exported assignment: the giver's name, their email if known, and their link. */
  datatype Assignment = Assignment(giver: string, email: Option<string>, link: string)

  const Header: string := "Giver,Email,Link"

  /** The line written for one assignment. */
  function Row(a: Assignment): string {
    a.giver + "," + OrEmpty(a.email) + "," + a.link
  }

  function Rows(assignments: seq<Assignment>): (rows: seq<string>)
    ensures |rows| == |assignments|
    ensures forall i :: 0 <= i < |rows| ==> rows[i] == Row(assignments[i])
  {
    seq(|assignments|, i requires 0 <= i < |assignments| => Row(assignments[i]))
  }

  /** `generateCSV(assignments)`. */
  function GenerateCsv(assignments: seq<Assignment>): string {
    Header + "\n" + Join(Rows(assignments), "\n")
  }

  /** No field of the assignment contains `c`. */
  predicate FieldsFree(a: Assignment, c: char) {
    c !in a.giver && c !in OrEmpty(a.email) && c !in a.link
  }

  /** A row is its three fields joined by commas. */
  lemma RowFields(a: Assignment)
    requires FieldsFree(a, ',')
    ensures Split(Row(a), ',') == [a.giver, OrEmpty(a.email), a.link]
  {
    var fields := [a.giver, OrEmpty(a.email), a.link];
    assert Join(fields, ",") == Row(a) by {
      assert fields[1..][1..] == [a.link];
      assert Join(fields[1..], ",") == OrEmpty(a.email) + "," + a.link;
    }
    SplitJoin(fields, ',');
  }

  /**
   With no line break inside any field, the export's lines are the header
   and then one row per assignment; with no assignments the text is the
   header and a line break, which splits into the header and one empty
   line.
   */
  lemma CsvLines(assignments: seq<Assignment>)
    requires forall i :: 0 <= i < |assignments| ==> FieldsFree(assignments[i], '\n')
    ensures |assignments| == 0 ==> Split(GenerateCsv(assignments), '\n') == [Header, ""]
    ensures |assignments| > 0 ==> Split(GenerateCsv(assignments), '\n') == [Header] + Rows(assignments)
  {
    var rows := Rows(assignments);
    var body := Join(rows, "\n");
    assert GenerateCsv(assignments) == Header + ("\n" + body);
    SplitFreePrefix(Header, "\n" + body, '\n');
    assert Split("\n" + body, '\n') == [""] + Split(body, '\n') by {
      assert ("\n" + body)[1..] == body;
    }
    assert Header + "" == Header;
    if |assignments| > 0 {
      forall i | 0 <= i < |rows|
        ensures '\n' !in rows[i]
      {
        assert rows[i] == assignments[i].giver + "," + OrEmpty(assignments[i].email) + "," + assignments[i].link;
      }
      SplitJoin(rows, '\n');
    }
  }

  /**
   A giver whose name holds a comma shifts the row's columns: the name is
   read back as two fields, and an email-less row as four fields with the
   empty email third.
   */
  lemma CommaShiftsColumns(first: string, second: string, link: string)
    requires ',' !in first && ',' !in second && ',' !in link
    ensures Split(Row(Assignment(first + "," + second, None, link)), ',') == [first, second, "", link]
  {
    var parts := [first, second, "", link];
    assert Join(parts, ",") == Row(Assignment(first + "," + second, None, link)) by {
      assert parts[1..] == [second, "", link];
      assert parts[1..][1..] == ["", link];
      assert parts[1..][1..][1..] == [link];
      assert Join(["", link], ",") == "" + "," + link;
    }
    SplitJoin(parts, ',');
  }
}

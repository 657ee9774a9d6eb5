/** The text of the member CSV export: a header line, then one line of
    eight quoted cells per member, joined by newlines. Fetching the rows
    and downloading the file are outside the model. */
module CsvExport {
  import opened Common
  import opened Records
  import opened Text

  /** The column names, in order. */
  const Headers: seq<string> := ["Name", "Display Name", "Birth Date", "Death Date", "Gender", "Occupation", "Living", "Notes"]

  // ---------------------------------------------------------------------
  // Cells and lines
  // ---------------------------------------------------------------------

  /** The notes cell: every ',' becomes ';' and every newline a space. */
  function CleanNotes(s: string): (r: string)
    ensures |r| == |s|
    ensures forall i :: 0 <= i < |s| ==>
      r[i] == (if s[i] == ',' then ';' else if s[i] == '\n' then ' ' else s[i])
    ensures ',' !in r && '\n' !in r
    decreases |s|
  {
    if s == [] then ""
    else [if s[0] == ',' then ';' else if s[0] == '\n' then ' ' else s[0]] + CleanNotes(s[1..])
  }

  /** Cleaning the notes twice is cleaning them once. */
  lemma CleanNotesIdempotent(s: string)
    ensures CleanNotes(CleanNotes(s)) == CleanNotes(s)
  {
  }

  /** The eight cells of a member's line; absent or empty fields give "". */
  function Cells(m: Member): (cells: seq<string>)
    ensures |cells| == |Headers|
    ensures cells[0] == Pick(CanonicalName(m), "") && cells[1] == Pick(m.displayName, "")
    ensures cells[2] == Pick(PersonField(m, (p: Person) => p.birthDate), "")
    ensures cells[3] == Pick(PersonField(m, (p: Person) => p.deathDate), "")
    ensures cells[4] == Pick(PersonField(m, (p: Person) => p.gender), "")
    ensures cells[5] == Pick(PersonField(m, (p: Person) => p.occupation), "")
    ensures cells[6] == (if m.isLiving then "Yes" else "No")
    ensures cells[7] == CleanNotes(Pick(m.notes, ""))
    ensures ',' !in cells[7] && '\n' !in cells[7]
  {
    [ Pick(CanonicalName(m), ""),
      Pick(m.displayName, ""),
      Pick(PersonField(m, (p: Person) => p.birthDate), ""),
      Pick(PersonField(m, (p: Person) => p.deathDate), ""),
      Pick(PersonField(m, (p: Person) => p.gender), ""),
      Pick(PersonField(m, (p: Person) => p.occupation), ""),
      if m.isLiving then "Yes" else "No",
      CleanNotes(Pick(m.notes, "")) ]
  }

  /** A cell wrapped in double quotes (inner quotes are not escaped). */
  function Quote(cell: string): (q: string)
    ensures |q| == |cell| + 2 && q[0] == '"' && q[|q| - 1] == '"' && q[1..|q| - 1] == cell
  {
    "\"" + cell + "\""
  }

  /** Each cell quoted, in order. */
  function QuoteAll(cells: seq<string>): (qs: seq<string>)
    ensures |qs| == |cells|
    ensures forall i :: 0 <= i < |cells| ==> qs[i] == Quote(cells[i])
    decreases |cells|
  {
    if cells == [] then [] else [Quote(cells[0])] + QuoteAll(cells[1..])
  }

  /** The line written for one member. */
  function RowLine(m: Member): string
  {
    Join(QuoteAll(Cells(m)), ',')
  }

  /** The lines written for the members, in order. */
  function RowLines(members: seq<Member>): (lines: seq<string>)
    ensures |lines| == |members|
    ensures forall i :: 0 <= i < |members| ==> lines[i] == RowLine(members[i])
    decreases |members|
  {
    if members == [] then [] else [RowLine(members[0])] + RowLines(members[1..])
  }

  /** `exportMembersAsCSV`'s text: fails with 'No members to export' for a
      missing or empty list; otherwise the header line and one line per
      member joined by newlines. */
  function CsvContent(members: Option<seq<Member>>): (r: Result<string>)
    ensures r.Failure? <==> members.None? || members.value == []
    ensures r.Failure? ==> r.error == "No members to export"
    ensures r.Ok? ==> r.value == Join([Join(Headers, ',')] + RowLines(members.value), '\n')
  {
    if members.None? || members.value == [] then Failure("No members to export")
    else Ok(Join([Join(Headers, ',')] + RowLines(members.value), '\n'))
  }

  /** Column names are plain words: letters and spaces only. */
  predicate Plain(name: string)
  {
    forall i :: 0 <= i < |name| ==> name[i] == ' ' || 'A' <= name[i] <= 'Z' || 'a' <= name[i] <= 'z'
  }

  /** Every column name is plain. */
  lemma HeadersPlain()
    ensures forall p :: p in Headers ==> Plain(p)
  {
  }

  /** The header line holds the column names, unquoted, separated by commas:
      it splits at commas back into exactly the eight names. */
  lemma HeaderLineCells()
    ensures Split(Join(Headers, ','), ',') == Headers
    ensures '\n' !in Join(Headers, ',')
  {
    HeadersPlain();
    SplitJoin(Headers, ',');
    JoinFree(Headers, ',', '\n');
  }

  /** A joined list ends with the last character of its last piece. */
  lemma {:induction false} JoinEndsWithLast(parts: seq<string>, sep: char)
    requires parts != [] && parts[|parts| - 1] != []
    ensures var s := Join(parts, sep); s != [] && s[|s| - 1] == parts[|parts| - 1][|parts[|parts| - 1]| - 1]
    decreases |parts|
  {
    if |parts| > 1 {
      JoinEndsWithLast(parts[1..], sep);
    }
  }

  /** The text is non-empty and its last character is a closing quote. */
  predicate EndsWithQuote(s: string)
  {
    s != [] && s[|s| - 1] == '"'
  }

  /** A member line ends with a closing quote. */
  lemma RowLineEndsWithQuote(m: Member)
    ensures EndsWithQuote(RowLine(m))
  {
    var qs := QuoteAll(Cells(m));
    assert qs[7] == Quote(Cells(m)[7]);
    JoinEndsWithLast(qs, ',');
  }

  /** Lines joined after a header end as their last line ends. */
  lemma LinesEndWithQuote(header: string, rows: seq<string>)
    requires rows != [] && EndsWithQuote(rows[|rows| - 1])
    ensures EndsWithQuote(Join([header] + rows, '\n'))
  {
    var lines := [header] + rows;
    assert lines[|lines| - 1] == rows[|rows| - 1];
    JoinEndsWithLast(lines, '\n');
  }

  /** The export ends with the last member's closing quote, never with a
      newline. */
  lemma NoTrailingNewline(members: seq<Member>)
    requires members != []
    ensures EndsWithQuote(CsvContent(Some(members)).value)
  {
    var rows := RowLines(members);
    RowLineEndsWithQuote(members[|members| - 1]);
    LinesEndWithQuote(Join(Headers, ','), rows);
  }

  /** No field of the member (other than the cleaned notes) holds `c`. */
  predicate FieldsFree(m: Member, c: char)
  {
    forall i :: 0 <= i < 7 ==> c !in Cells(m)[i]
  }

  /** Quoting adds no character other than '"'. */
  lemma QuoteFree(cell: string, c: char)
    requires c != '"' && c !in cell
    ensures c !in Quote(cell)
  {
    var q := Quote(cell);
    forall i | 0 <= i < |q| ensures q[i] != c {
      if 0 < i < |q| - 1 {
        assert q[i] == cell[i - 1];
      }
    }
  }

  /** A member line splits at commas back into its eight quoted cells,
      provided no field holds a comma. */
  lemma RowCells(m: Member)
    requires FieldsFree(m, ',')
    ensures Split(RowLine(m), ',') == QuoteAll(Cells(m))
    ensures |Split(RowLine(m), ',')| == 8
  {
    var qs := QuoteAll(Cells(m));
    forall p | p in qs ensures ',' !in p {
      var i :| 0 <= i < |qs| && qs[i] == p;
      QuoteFree(Cells(m)[i], ',');
    }
    SplitJoin(qs, ',');
  }

  /** A line joined from cells free of `c` holds no `c`. */
  lemma {:induction false} JoinFree(parts: seq<string>, sep: char, c: char)
    requires c != sep
    requires forall p :: p in parts ==> c !in p
    ensures c !in Join(parts, sep)
    decreases |parts|
  {
    if |parts| > 1 {
      assert parts[0] in parts;
      assert forall p :: p in parts[1..] ==> p in parts;
      JoinFree(parts[1..], sep, c);
    } else if |parts| == 1 {
      assert parts[0] in parts;
    }
  }

  /** A member line holds no newline when no field does. */
  lemma RowLineFree(m: Member)
    requires FieldsFree(m, '\n')
    ensures '\n' !in RowLine(m)
  {
    var qs := QuoteAll(Cells(m));
    forall p | p in qs ensures '\n' !in p {
      var j :| 0 <= j < |qs| && qs[j] == p;
      QuoteFree(Cells(m)[j], '\n');
    }
    JoinFree(qs, ',', '\n');
  }

  /** No member line holds a newline when no field does. */
  lemma {:induction false} RowLinesFree(members: seq<Member>)
    requires forall m :: m in members ==> FieldsFree(m, '\n')
    ensures forall l :: l in RowLines(members) ==> '\n' !in l
    decreases |members|
  {
    if members != [] {
      assert members[0] in members;
      RowLineFree(members[0]);
      assert forall m :: m in members[1..] ==> m in members;
      RowLinesFree(members[1..]);
      assert RowLines(members) == [RowLine(members[0])] + RowLines(members[1..]);
    }
  }

  /** A header line without newlines followed by member lines splits back
      into those lines when no field holds a newline. */
  lemma LinesSplit(header: string, members: seq<Member>)
    requires '\n' !in header
    requires forall m :: m in members ==> FieldsFree(m, '\n')
    ensures Split(Join([header] + RowLines(members), '\n'), '\n') == [header] + RowLines(members)
  {
    RowLinesFree(members);
    SplitJoin([header] + RowLines(members), '\n');
  }

  /** The export splits at newlines into the header line followed by one
      line per member, in order, provided no field holds a newline (the
      notes never do). */
  lemma CsvLines(members: seq<Member>)
    requires members != []
    requires forall m :: m in members ==> FieldsFree(m, '\n')
    ensures Split(CsvContent(Some(members)).value, '\n') == [Join(Headers, ',')] + RowLines(members)
    ensures |Split(CsvContent(Some(members)).value, '\n')| == |members| + 1
  {
    HeaderLineCells();
    LinesSplit(Join(Headers, ','), members);
  }
}

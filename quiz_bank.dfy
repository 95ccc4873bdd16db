/** The question bank of boat/quiz_bot.py: the `QuizItem` record and
    `QuestionBank.load_csv`, which checks the header and turns decoded CSV
    rows into quiz items, appending them to the bank. */
module QuizBank {
  import opened Wrappers
  import opened PyText

  /** One decoded CSV row: column name to cell text. A column absent from the
      map behaves like a missing key for `row.get`. */
  type Row = map<string, string>

  datatype QuizItem = QuizItem(
    questionNo: string,
    question: string,
    options: seq<string>,
    correctOptionId: int,
    description: Option<string>,
    reference: Option<string>)

  /** The header names the nine columns the loader reads. */
  predicate HasRequiredColumns(fieldnames: set<string>) {
    {"question_no", "question", "option1", "option2", "option3", "option4",
     "correct_answer", "description", "reference"} <= fieldnames
  }

  /** The `ValueError` raised when the header lacks a required column; it
      carries the header actually found. */
  datatype LoadError = MissingColumns(found: set<string>)

  /** `row.get(key, default)` */
  function Get(row: Row, key: string, default: string): string {
    if key in row then row[key] else default
  }

  /** The nine cells of a row the loader looks at, each read as
      `row.get(column, "")`. (`row.get("question")`, `row["question"]` and
      `row.get("description") or None` all agree with this reading on the
      paths where the loader uses them.) */
  datatype Cells = Cells(
    questionNo: string,
    question: string,
    options: seq<string>,
    correctAnswer: string,
    description: string,
    reference: string)

  function CellsOf(row: Row): (c: Cells)
    ensures |c.options| == 4
  {
    Cells(Get(row, "question_no", ""), Get(row, "question", ""),
          [Get(row, "option1", ""), Get(row, "option2", ""),
           Get(row, "option3", ""), Get(row, "option4", "")],
          Get(row, "correct_answer", ""), Get(row, "description", ""),
          Get(row, "reference", ""))
  }

  /** `value or None` for a cell */
  function OrNone(v: string): Option<string> {
    if v == "" then None else Some(v)
  }

  /** What every item the loader produces satisfies: between one and four
      options, each stripped and non-empty, and an in-range answer index. */
  ghost predicate ValidItem(item: QuizItem) {
    0 <= item.correctOptionId < |item.options| <= 4 &&
    forall k :: 0 <= k < |item.options| ==> item.options[k] != "" && Trimmed(item.options[k])
  }

  /** `[opt.strip() for opt in opts if opt.strip()]`: the stripped cells,
      with the blank ones dropped. */
  function CompactStripped(opts: seq<string>): (r: seq<string>)
    ensures |r| <= |opts|
    ensures forall k :: 0 <= k < |r| ==> r[k] != "" && Trimmed(r[k])
  {
    if opts == [] then []
    else
      var head := Strip(opts[0]);
      StripEnds(opts[0]);
      (if head != "" then [head] else []) + CompactStripped(opts[1..])
  }

  /** Compacting a concatenation compacts each part: the cells keep their
      column order. */
  lemma {:induction false} CompactStrippedAppend(a: seq<string>, b: seq<string>)
    ensures CompactStripped(a + b) == CompactStripped(a) + CompactStripped(b)
  {
    if a != [] {
      assert (a + b)[0] == a[0];
      assert (a + b)[1..] == a[1..] + b;
      CompactStrippedAppend(a[1..], b);
    } else {
      assert a + b == b;
    }
  }

  /** The options kept are exactly the non-empty stripped cells. */
  lemma {:induction false} CompactStrippedMembers(opts: seq<string>, x: string)
    ensures x in CompactStripped(opts) <==>
              x != "" && exists j :: 0 <= j < |opts| && Strip(opts[j]) == x
  {
    if opts != [] {
      CompactStrippedMembers(opts[1..], x);
      var rest := CompactStripped(opts[1..]);
      var head := Strip(opts[0]);
      assert CompactStripped(opts) == (if head != "" then [head] else []) + rest;
      if x != "" && exists j :: 0 <= j < |opts| && Strip(opts[j]) == x {
        var j :| 0 <= j < |opts| && Strip(opts[j]) == x;
        if j > 0 {
          assert Strip(opts[1..][j - 1]) == x;
        }
      }
      if x != "" && exists j :: 0 <= j < |opts[1..]| && Strip(opts[1..][j]) == x {
        var j :| 0 <= j < |opts[1..]| && Strip(opts[1..][j]) == x;
        assert Strip(opts[j + 1]) == x;
      }
    }
  }

  /** `s.index(x)`: the position of the first occurrence of `x`, or `None`
      where Python raises `ValueError`. */
  function IndexOf<T(==)>(s: seq<T>, x: T): Option<nat> {
    if s == [] then None
    else if s[0] == x then Some(0)
    else
      match IndexOf(s[1..], x)
      case None => None
      case Some(i) => Some(i + 1)
  }

  /** `IndexOf` fails exactly when `x` does not occur, and otherwise finds
      the first occurrence. */
  lemma {:induction false} IndexOfSpec<T>(s: seq<T>, x: T)
    ensures IndexOf(s, x).None? <==> x !in s
    ensures IndexOf(s, x).Some? ==>
              var i := IndexOf(s, x).value;
              i < |s| && s[i] == x && forall j :: 0 <= j < i ==> s[j] != x
  {
    if s != [] && s[0] != x {
      IndexOfSpec(s[1..], x);
      assert x in s <==> x in s[1..] by {
        if x in s {
          var k :| 0 <= k < |s| && s[k] == x;
          assert s[1..][k - 1] == x;
        }
      }
    }
  }

  /** The fate of one row in the loading loop: `None` where the loop
      `continue`s, otherwise the item it appends. */
  function Normalize(c: Cells): Option<QuizItem>
    requires |c.options| == 4
  {
    if c.question == "" then None
    else
      var options := CompactStripped(c.options);
      match IndexOf(options, Strip(c.correctAnswer))
      case None => None
      case Some(cid) =>
        if !(0 <= cid < |options|) then None
        else Some(QuizItem(c.questionNo, Strip(c.question), options, cid,
                           OrNone(c.description), OrNone(c.reference)))
  }

  /** A row is kept exactly when its question cell is non-empty and its
      stripped answer is one of its options; the item kept has the compacted
      options and points at the first option equal to the answer. */
  lemma NormalizeSpec(c: Cells)
    requires |c.options| == 4
    ensures Normalize(c).Some? <==>
              c.question != "" && Strip(c.correctAnswer) in CompactStripped(c.options)
    ensures Normalize(c).Some? ==>
              var item := Normalize(c).value;
              var answer := Strip(c.correctAnswer);
              ValidItem(item) &&
              item.options == CompactStripped(c.options) &&
              item.options[item.correctOptionId] == answer &&
              (forall j :: 0 <= j < item.correctOptionId ==> item.options[j] != answer) &&
              item.question == Strip(c.question) &&
              item.questionNo == c.questionNo &&
              item.description == OrNone(c.description) &&
              item.reference == OrNone(c.reference)
  {
    IndexOfSpec(CompactStripped(c.options), Strip(c.correctAnswer));
  }

  function NormalizeRow(row: Row): Option<QuizItem> {
    Normalize(CellsOf(row))
  }

  /** The values `f` yields along `xs`, in order, skipping the `None`s:
      a loop that appends `f(x)` whenever there is one. */
  function FilterMap<A, B>(f: A -> Option<B>, xs: seq<A>): (r: seq<B>)
    ensures |r| <= |xs|
  {
    if xs == [] then []
    else
      var last := f(xs[|xs| - 1]);
      FilterMap(f, xs[..|xs| - 1]) + (if last.Some? then [last.value] else [])
  }

  /** `FilterMap` over `a + b` is `FilterMap` over `a` followed by
      `FilterMap` over `b`: order is kept and nothing is mixed. */
  lemma {:induction false} FilterMapAppend<A, B>(f: A -> Option<B>, a: seq<A>, b: seq<A>)
    ensures FilterMap(f, a + b) == FilterMap(f, a) + FilterMap(f, b)
  {
    if b == [] {
      assert a + b == a;
    } else {
      assert (a + b)[..|a + b| - 1] == a + b[..|b| - 1];
      FilterMapAppend(f, a, b[..|b| - 1]);
    }
  }

  /** Every value in the result is yielded by some element, and every value
      some element yields is in the result. */
  lemma {:induction false} FilterMapMembers<A, B>(f: A -> Option<B>, xs: seq<A>, y: B)
    ensures y in FilterMap(f, xs) <==> exists i :: 0 <= i < |xs| && f(xs[i]) == Some(y)
  {
    if xs != [] {
      var init := xs[..|xs| - 1];
      FilterMapMembers(f, init, y);
      if exists i :: 0 <= i < |xs| && f(xs[i]) == Some(y) {
        var i :| 0 <= i < |xs| && f(xs[i]) == Some(y);
        if i < |xs| - 1 {
          assert f(init[i]) == Some(y);
        }
      }
      if exists i :: 0 <= i < |init| && f(init[i]) == Some(y) {
        var i :| 0 <= i < |init| && f(init[i]) == Some(y);
        assert f(xs[i]) == Some(y);
      }
    }
  }

  /** One more element adds what `f` yields for it. */
  lemma FilterMapStep<A, B>(f: A -> Option<B>, xs: seq<A>, i: nat)
    requires i < |xs|
    ensures FilterMap(f, xs[..i + 1]) ==
            FilterMap(f, xs[..i]) + (if f(xs[i]).Some? then [f(xs[i]).value] else [])
  {
    assert xs[..i + 1][..i] == xs[..i];
  }

  /** The items `load_csv` appends for `rows`, in row order; each is a
      well-formed quiz item. */
  function Accepted(rows: seq<Row>): (r: seq<QuizItem>)
    ensures |r| <= |rows|
    ensures forall k :: 0 <= k < |r| ==> ValidItem(r[k])
  {
    var r := FilterMap(NormalizeRow, rows);
    assert forall k :: 0 <= k < |r| ==> ValidItem(r[k]) by {
      forall k | 0 <= k < |r|
        ensures ValidItem(r[k])
      {
        FilterMapMembers(NormalizeRow, rows, r[k]);
        var i :| 0 <= i < |rows| && NormalizeRow(rows[i]) == Some(r[k]);
        NormalizeSpec(CellsOf(rows[i]));
      }
    }
    r
  }

  /** The emptiness test looks at the unstripped question, so a question of
      whitespace only is kept, with empty text. */
  lemma BlankQuestionKept(c: Cells)
    requires |c.options| == 4
    requires c.question != "" && AllSpace(c.question)
    requires Strip(c.correctAnswer) in CompactStripped(c.options)
    ensures Normalize(c).Some? && Normalize(c).value.question == ""
  {
    NormalizeSpec(c);
  }

  /** A textual answer selects the option it equals. */
  lemma TextAnswerExample()
    ensures Normalize(Cells("1", "2+2?", ["3", "4", "5", ""], "4", "", "")) ==
            Some(QuizItem("1", "2+2?", ["3", "4", "5"], 1, None, None))
  {
    StripTrimmed("2+2?");
    ExampleOptions();
    assert IndexOf(["5"], "4") == None;
    assert IndexOf(["4", "5"], "4") == Some(0);
    assert IndexOf(["3", "4", "5"], "4") == Some(1);
  }

  /** A digit string is not read as an option number: "2" matches no option
      of ["3", "4", "5"], so the row is dropped. */
  lemma NumericAnswerDropped()
    ensures Normalize(Cells("1", "2+2?", ["3", "4", "5", ""], "2", "", "")) == None
  {
    StripTrimmed("2+2?");
    StripTrimmed("2");
    ExampleOptions();
    IndexOfSpec(["3", "4", "5"], "2");
  }

  lemma ExampleOptions()
    ensures CompactStripped(["3", "4", "5", ""]) == ["3", "4", "5"]
  {
    StripTrimmed("3");
    StripTrimmed("4");
    StripTrimmed("5");
    StripTrimmed("");
    var opts := ["3", "4", "5", ""];
    assert opts[3..] == [""] && CompactStripped([""]) == [];
    assert opts[2..] == ["5", ""] && CompactStripped(["5", ""]) == ["5"];
    assert opts[1..] == ["4", "5", ""] && CompactStripped(["4", "5", ""]) == ["4", "5"];
  }

  /** An empty or missing question cell drops the row. */
  lemma SkipEmptyQuestion(c: Cells)
    requires |c.options| == 4 && c.question == ""
    ensures Normalize(c) == None
  {
  }

  /** A row whose stripped answer is not the text of one of its kept options
      is skipped: `options.index` raises and the `except` continues. */
  lemma SkipUnmatchedAnswer(c: Cells)
    requires |c.options| == 4 && c.question != ""
    requires Strip(c.correctAnswer) !in CompactStripped(c.options)
    ensures Normalize(c) == None
  {
    NormalizeSpec(c);
  }

  /** A row without a `correct_answer` cell is skipped, whatever its other
      cells hold: the empty answer never equals a kept option. */
  lemma MissingAnswerDropped(row: Row)
    requires "correct_answer" !in row
    ensures NormalizeRow(row) == None
  {
    var c := CellsOf(row);
    NormalizeSpec(c);
    StripTrimmed("");
    CompactStrippedMembers(c.options, "");
  }

  class QuestionBank {
    var items: seq<QuizItem>

    /** Every item in the bank is a well-formed quiz item. */
    ghost predicate Valid()
      reads this
    {
      forall k :: 0 <= k < |items| ==> ValidItem(items[k])
    }

    constructor ()
      ensures items == [] && Valid()
    {
      items := [];
    }

    /** `load_csv`: given the header's field names and the decoded rows,
        either raises before touching the bank, or appends the accepted
        items and returns the bank's new size. */
    method LoadCsv(fieldnames: set<string>, rows: seq<Row>) returns (r: Result<nat, LoadError>)
      modifies this
      ensures !HasRequiredColumns(fieldnames) ==>
                r == Failure(MissingColumns(fieldnames)) && items == old(items)
      ensures HasRequiredColumns(fieldnames) ==>
                items == old(items) + Accepted(rows) && r == Success(|items|)
      ensures old(Valid()) ==> Valid()
    {
      if !HasRequiredColumns(fieldnames) {
        return Failure(MissingColumns(fieldnames));
      }
      var i := 0;
      assert rows[..0] == [];
      while i < |rows|
        invariant 0 <= i <= |rows|
        invariant items == old(items) + Accepted(rows[..i])
      {
        var row := rows[i];
        FilterMapStep(NormalizeRow, rows, i);
        i := i + 1;
        var cells := CellsOf(row);
        if cells.question == "" {
          SkipEmptyQuestion(cells);
          continue;
        }
        var options := CompactStripped(cells.options);
        var found := IndexOf(options, Strip(cells.correctAnswer));
        if found.None? || !(0 <= found.value < |options|) {
          continue;
        }
        var cid := found.value;
        var item := QuizItem(cells.questionNo, Strip(cells.question), options, cid,
                             OrNone(cells.description), OrNone(cells.reference));
        items := items + [item];
      }
      assert rows[..i] == rows;
      forall k | old(Valid()) && 0 <= k < |items|
        ensures ValidItem(items[k])
      {
        if k >= |old(items)| {
          assert items[k] == Accepted(rows)[k - |old(items)|];
        }
      }
      r := Success(|items|);
    }
  }
}

/**
 Reshaping of one wide survey table into a single per-year row
 (notebooks/preprocessing/data_manipulation.py).

 A table keeps one column of row labels, the specifier column. The rows whose
 specifier value is interesting are kept; every cell of every other column
 of those rows is laid out in one row, row by row, behind a leading "year"
 cell; and each cell gets a flat column name synthesized from its row's
 specifier value and its column's label.
 */
module DataManipulation {
  import opened Seqs
  import opened Text

  /** A cell as `str()` renders it. */
  type Value = string

  /**
   A pandas column label: a plain string, or a tuple of the rendered parts
   of a multi-level label.
   */
  datatype Label = Plain(text: string) | Tuple(parts: seq<string>)

  /**
   A pandas data frame: column labels and rows of cells. `WellFormed` says
   that every row has one cell per column and that no label repeats.
   */
  datatype Table = Table(columns: seq<Label>, rows: seq<seq<Value>>)

  predicate WellFormed(t: Table)
  {
    Rectangular(t.rows, |t.columns|) && Distinct(t.columns)
  }

  /** Why pandas raises. */
  datatype Error =
    | KeyError          // a requested column label is not in the frame
    | LengthMismatch    // the values do not fill the given column names
    | IndexError        // numpy indexing with a float array (an empty mask)
    | DuplicateColumn   // `insert` of a label the frame already has

  datatype Result<T> = Ok(value: T) | Err(error: Error)

  /** The characters `strip("\n")` removes. */
  const Newline: set<char> := {'\n'}
  /** The characters `strip("<NA>")` removes: a set, not the substring "<NA>". */
  const MissingMarker: set<char> := {'<', 'N', 'A', '>'}
  /** The first text `replace` deletes. */
  const NanText: string := "nan"
  /** The second text `replace` deletes: a backslash followed by `n`. */
  const EscapedNewline: string := ['\\', 'n']
  /** The label `insert` gives the leading column. */
  const YearLabel: Label := Plain("year")

  // ---------------------------------------------------------------------
  // new_column_from_cols_and_specif
  // ---------------------------------------------------------------------

  /**
   What iterating over a label yields: the one-character strings of a plain
   label, or the parts of a tuple.
   */
  function Elements(l: Label): seq<string>
  {
    match l
    case Plain(t) => seq(|t|, k requires 0 <= k < |t| => [t[k]])
    case Tuple(ps) => ps
  }

  /** One element of a label, cleaned: end newlines first, then end marker characters. */
  function CleanElement(e: string): string
  {
    Strip(Strip(e, Newline), MissingMarker)
  }

  function CleanEach(es: seq<string>): (rs: seq<string>)
    ensures |rs| == |es|
  {
    seq(|es|, k requires 0 <= k < |es| => CleanElement(es[k]))
  }

  /** The label's text: its elements cleaned one by one and joined with no separator. */
  function CleanLabel(l: Label): string
  {
    Concat(CleanEach(Elements(l)))
  }

  /** The name before substitution: specifier without end newlines, ": ", cleaned label. */
  function BaseName(l: Label, specifier: Value): string
  {
    Strip(specifier, Newline) + ": " + CleanLabel(l)
  }

  /**
   `new_column_from_cols_and_specif(col, specifier)`: the base name with
   every "nan" deleted and then every backslash-`n` deleted. Both are
   left-to-right scans, so the result is never longer than the base name.
   */
  function NewColumnName(l: Label, specifier: Value): (r: string)
    ensures |r| <= |BaseName(l, specifier)|
  {
    DeleteAll(DeleteAll(BaseName(l, specifier), NanText), EscapedNewline)
  }

  /** Cleaning one character deletes it exactly when it is a newline or a marker character. */
  lemma CleanOneChar(c: char)
    ensures CleanElement([c]) == if c in Newline + MissingMarker then [] else [c]
  {
    if c in Newline {
      StripUnique([c], Newline, 0, 0);
      StripUnique([], MissingMarker, 0, 0);
    } else {
      StripUnique([c], Newline, 0, 1);
      if c in MissingMarker {
        StripUnique([c], MissingMarker, 0, 0);
      } else {
        StripUnique([c], MissingMarker, 0, 1);
      }
    }
  }

  /**
   For a plain string label the cleaned text is the label with every
   newline, '<', 'N', 'A' and '>' deleted and the other characters kept in
   order.
   */
  lemma {:induction false} CleanPlainLabel(t: string)
    ensures CleanLabel(Plain(t)) == RemoveChars(t, Newline + MissingMarker)
  {
    if t != [] {
      CleanPlainLabel(t[1..]);
      CleanOneChar(t[0]);
      var cleaned := CleanEach(Elements(Plain(t)));
      assert cleaned[0] == CleanElement([t[0]]);
      assert cleaned[1..] == CleanEach(Elements(Plain(t[1..])));
    }
  }

  /** For a tuple label each part is cleaned on its own and the results are joined in order. */
  lemma CleanTupleLabel(parts: seq<string>, k: nat)
    requires k < |parts|
    ensures CleanLabel(Tuple(parts)) ==
            Concat(CleanEach(parts[..k])) + CleanElement(parts[k]) + Concat(CleanEach(parts[k + 1..]))
  {
    var cleaned := CleanEach(parts);
    assert cleaned == CleanEach(parts[..k]) + [CleanElement(parts[k])] + CleanEach(parts[k + 1..]);
    ConcatAppend(CleanEach(parts[..k]) + [CleanElement(parts[k])], CleanEach(parts[k + 1..]));
    ConcatAppend(CleanEach(parts[..k]), [CleanElement(parts[k])]);
    assert Concat([CleanElement(parts[k])]) == CleanElement(parts[k]) + Concat([]);
  }

  /** The marker strip removes the whole missing-value text "<NA>". */
  lemma MarkerStripNA()
    ensures CleanElement("<NA>") == ""
  {
    assert TrimLeft("<NA>", Newline) == "<NA>";
    assert TrimRight("<NA>", Newline) == "<NA>";
    assert TrimLeft("<NA>", MissingMarker) == TrimLeft("NA>", MissingMarker);
    assert TrimLeft("NA>", MissingMarker) == TrimLeft("A>", MissingMarker);
    assert TrimLeft("A>", MissingMarker) == TrimLeft(">", MissingMarker);
  }

  /**
   The marker strip removes characters of a set, not the substring "<NA>":
   the element "NAME" loses its leading "NA".
   */
  lemma MarkerStripIsCharSet()
    ensures CleanElement("NAME") == "ME"
  {
    NoNewlineAtEnds("NAME");
    MarkerTrimNAME();
  }

  lemma NoNewlineAtEnds(e: string)
    requires e != [] && e[0] !in Newline && e[|e| - 1] !in Newline
    ensures Strip(e, Newline) == e
  {
  }

  lemma MarkerTrimNAME()
    ensures Strip("NAME", MissingMarker) == "ME"
  {
    assert TrimLeft("NAME", MissingMarker) == TrimLeft("AME", MissingMarker);
    assert TrimLeft("AME", MissingMarker) == TrimLeft("ME", MissingMarker);
    assert 'M' !in MissingMarker && 'E' !in MissingMarker;
  }

  /** Neither character of the ": " glue occurs in either deleted text. */
  lemma GlueOutsidePatterns()
    ensures forall k :: 0 <= k < |": "| ==> ": "[k] !in NanText
    ensures forall k :: 0 <= k < |": "| ==> ": "[k] !in EscapedNewline
  {
  }

  /**
   No "nan" and no backslash-`n` can reach across the ": " glue, so each
   deletion works on the specifier side and on the label side apart.
   */
  lemma NameBySides(l: Label, specifier: Value)
    ensures NewColumnName(l, specifier) ==
            DeleteAll(DeleteAll(Strip(specifier, Newline), NanText), EscapedNewline) + ": " +
            DeleteAll(DeleteAll(CleanLabel(l), NanText), EscapedNewline)
  {
    var pre, post := Strip(specifier, Newline), CleanLabel(l);
    GlueOutsidePatterns();
    DeleteAllAround(pre, ": ", post, NanText);
    DeleteAllAround(DeleteAll(pre, NanText), ": ", DeleteAll(post, NanText), EscapedNewline);
  }

  /**
   The ": " between specifier and label survives both deletions, so a
   synthesized name is never the "year" label.
   */
  lemma NameKeepsSeparator(l: Label, specifier: Value)
    ensures Contains(NewColumnName(l, specifier), ": ")
    ensures Plain(NewColumnName(l, specifier)) != YearLabel
  {
    var name := NewColumnName(l, specifier);
    var left := DeleteAll(DeleteAll(Strip(specifier, Newline), NanText), EscapedNewline);
    var right := DeleteAll(DeleteAll(CleanLabel(l), NanText), EscapedNewline);
    NameBySides(l, specifier);
    GlueAt(left, right);
    assert ':' !in "year";
  }

  /** Where the glue sits in a glued name. */
  lemma GlueAt(left: string, right: string)
    ensures OccursAt(left + ": " + right, ": ", |left|)
    ensures (left + ": " + right)[|left|] == ':'
  {
    assert (left + ": " + right)[|left|..|left| + 2] == ": ";
  }

  /** A base name with neither "nan" nor backslash-`n` in it is the final name. */
  lemma NameWithoutMarkers(l: Label, specifier: Value)
    requires !Contains(BaseName(l, specifier), NanText)
    requires !Contains(BaseName(l, specifier), EscapedNewline)
    ensures NewColumnName(l, specifier) == BaseName(l, specifier)
  {
    DeleteAllAbsent(BaseName(l, specifier), NanText);
    DeleteAllAbsent(BaseName(l, specifier), EscapedNewline);
  }

  /**
   The final name is the base name split at "nan" and rejoined with nothing,
   then split at backslash-`n` and rejoined with nothing; no piece of either
   split contains its separator.
   */
  lemma NameBySplitting(l: Label, specifier: Value)
    ensures NewColumnName(l, specifier) ==
            Concat(Split(Concat(Split(BaseName(l, specifier), NanText)), EscapedNewline))
    ensures Join(Split(BaseName(l, specifier), NanText), NanText) == BaseName(l, specifier)
  {
    var base := BaseName(l, specifier);
    DeleteAllIsSplitJoin(base, NanText);
    DeleteAllIsSplitJoin(DeleteAll(base, NanText), EscapedNewline);
    JoinSplit(base, NanText);
  }

  lemma {:induction false} RemoveCharsNone(t: string, cs: set<char>)
    requires forall k :: 0 <= k < |t| ==> t[k] !in cs
    ensures RemoveChars(t, cs) == t
  {
    if t != [] {
      RemoveCharsNone(t[1..], cs);
    }
  }

  /**
   With a plain label `t` free of newlines and marker characters, and a
   specifier in which neither 'n' nor a backslash occurs and which has no
   newline at either end (an empty one included), the name is the
   specifier, ": " and what the two deletions leave of `t`.
   */
  lemma NameOfCleanLabel(t: string, specifier: Value)
    requires forall k :: 0 <= k < |t| ==> t[k] !in Newline + MissingMarker
    requires specifier == [] || (specifier[0] !in Newline && specifier[|specifier| - 1] !in Newline)
    requires forall k :: 0 <= k < |specifier| ==> specifier[k] != 'n' && specifier[k] != '\\'
    ensures NewColumnName(Plain(t), specifier) ==
            specifier + ": " + DeleteAll(DeleteAll(t, NanText), EscapedNewline)
  {
    NameBySides(Plain(t), specifier);
    CleanPlainLabel(t);
    RemoveCharsNone(t, Newline + MissingMarker);
    SpecifierUntouched(specifier);
  }

  /** A specifier as in `NameOfCleanLabel` passes through the strip and both deletions. */
  lemma SpecifierUntouched(specifier: Value)
    requires specifier == [] || (specifier[0] !in Newline && specifier[|specifier| - 1] !in Newline)
    requires forall k :: 0 <= k < |specifier| ==> specifier[k] != 'n' && specifier[k] != '\\'
    ensures DeleteAll(DeleteAll(Strip(specifier, Newline), NanText), EscapedNewline) == specifier
  {
    if specifier != [] {
      NoNewlineAtEnds(specifier);
    }
    DeleteAllPrefix(specifier, [], NanText);
    DeleteAllPrefix(specifier, [], EscapedNewline);
    assert specifier + [] == specifier;
  }

  /**
   One scan does not remove every "nan": deleting the middle of "nnanan"
   brings its two ends together into a new "nan".
   */
  lemma NanMaySurvive()
    ensures NewColumnName(Plain("nnanan"), "x") == "x: nan"
    ensures Contains(NewColumnName(Plain("nnanan"), "x"), NanText)
  {
    NnananIsClean();
    NameOfCleanLabel("nnanan", "x");
    NanDeletionOfNnanan();
    EscapeDeletionOfNan();
    GlueXNan();
  }

  lemma NnananIsClean()
    ensures forall k :: 0 <= k < |"nnanan"| ==> "nnanan"[k] !in Newline + MissingMarker
  {
  }

  lemma NanDeletionOfNnanan()
    ensures DeleteAll("nnanan", NanText) == "nan"
  {
    assert "nnanan"[..3][1] != NanText[1];
    assert "nnanan"[1..] == "nanan";
    assert "nanan"[..3] == NanText && "nanan"[3..] == "an";
    assert DeleteAll("an", NanText) == "an";
  }

  lemma EscapeDeletionOfNan()
    ensures DeleteAll("nan", EscapedNewline) == "nan"
  {
    DeleteAllPrefix("nan", [], EscapedNewline);
    assert "nan" + [] == "nan";
  }

  lemma GlueXNan()
    ensures "x" + ": " + "nan" == "x: nan"
    ensures OccursAt("x: nan", NanText, 3)
  {
  }

  /** "nan" is deleted inside ordinary words too: a label "Finanzen" becomes "Fizen". */
  lemma NanInsideWords()
    ensures NewColumnName(Plain("Finanzen"), "x") == "x: Fizen"
  {
    FinanzenIsClean();
    NameOfCleanLabel("Finanzen", "x");
    NanDeletionOfFinanzen();
    EscapeDeletionOfFizen();
    GlueXFizen();
  }

  lemma FinanzenIsClean()
    ensures forall k :: 0 <= k < |"Finanzen"| ==> "Finanzen"[k] !in Newline + MissingMarker
  {
  }

  lemma NanDeletionOfFinanzen()
    ensures DeleteAll("Finanzen", NanText) == "Fizen"
  {
    assert "Finanzen" == "Fi" + "nanzen";
    DeleteAllPrefix("Fi", "nanzen", NanText);
    assert "nanzen"[..3] == NanText && "nanzen"[3..] == "zen";
    assert "zen" == "ze" + "n";
    DeleteAllPrefix("ze", "n", NanText);
    assert DeleteAll("n", NanText) == "n";
    assert "Fi" + ("ze" + "n") == "Fizen";
  }

  lemma EscapeDeletionOfFizen()
    ensures DeleteAll("Fizen", EscapedNewline) == "Fizen"
  {
    DeleteAllPrefix("Fizen", [], EscapedNewline);
    assert "Fizen" + [] == "Fizen";
  }

  lemma GlueXFizen()
    ensures "x" + ": " + "Fizen" == "x: Fizen"
  {
  }

  /**
   One scan does not remove every backslash-`n` either: in a label made of
   two backslashes and two `n`s the first backslash stays, the second one
   goes with the first `n`, and what is left is again backslash-`n`.
   */
  lemma EscapeMaySurvive()
    ensures NewColumnName(Plain(['\\', '\\', 'n', 'n']), "x") == ['x', ':', ' ', '\\', 'n']
    ensures Contains(NewColumnName(Plain(['\\', '\\', 'n', 'n']), "x"), EscapedNewline)
  {
    BackslashesIsClean();
    NameOfCleanLabel(['\\', '\\', 'n', 'n'], "x");
    NanDeletionOfBackslashes();
    EscapeDeletionOfBackslashes();
    GlueXEscape();
  }

  lemma BackslashesIsClean()
    ensures forall k :: 0 <= k < 4 ==> ['\\', '\\', 'n', 'n'][k] !in Newline + MissingMarker
  {
  }

  lemma NanDeletionOfBackslashes()
    ensures DeleteAll(['\\', '\\', 'n', 'n'], NanText) == ['\\', '\\', 'n', 'n']
  {
    assert ['\\', '\\', 'n', 'n'] == ['\\', '\\'] + ['n', 'n'];
    DeleteAllPrefix(['\\', '\\'], ['n', 'n'], NanText);
  }

  lemma EscapeDeletionOfBackslashes()
    ensures DeleteAll(['\\', '\\', 'n', 'n'], EscapedNewline) == ['\\', 'n']
  {
    var s: string := ['\\', '\\', 'n', 'n'];
    assert s[..2][1] != EscapedNewline[1];
    assert s[1..] == ['\\', 'n', 'n'];
    assert s[1..][..2] == EscapedNewline && s[1..][2..] == ['n'];
  }

  lemma GlueXEscape()
    ensures "x" + ": " + ['\\', 'n'] == ['x', ':', ' ', '\\', 'n']
    ensures OccursAt(['x', ':', ' ', '\\', 'n'], EscapedNewline, 3)
  {
  }

  /**
   The second deletion can also create a "nan" that the first one has already
   passed: in "na" backslash-`n` "n" deleting the escape leaves "nan".
   */
  lemma EscapeDeletionMakesNan()
    ensures NewColumnName(Plain("na\\nn"), "x") == "x: nan"
    ensures Contains(NewColumnName(Plain("na\\nn"), "x"), NanText)
  {
    NaEscapeIsClean();
    NameOfCleanLabel("na\\nn", "x");
    NanDeletionOfNaEscape();
    EscapeDeletionOfNaEscape();
    GlueXNan();
  }

  lemma NaEscapeIsClean()
    ensures forall k :: 0 <= k < |"na\\nn"| ==> "na\\nn"[k] !in Newline + MissingMarker
  {
  }

  lemma NanDeletionOfNaEscape()
    ensures DeleteAll("na\\nn", NanText) == "na\\nn"
  {
    var s := "na\\nn";
    assert s[..3][2] != NanText[2];
    DeleteAllNoMatch(s, NanText);
    assert s[1..] == "a\\" + "nn";
    DeleteAllPrefix("a\\", "nn", NanText);
    assert "n" + ("a\\" + "nn") == s;
  }

  lemma EscapeDeletionOfNaEscape()
    ensures DeleteAll("na\\nn", EscapedNewline) == "nan"
  {
    assert "na\\nn" == "na" + "\\nn";
    DeleteAllPrefix("na", "\\nn", EscapedNewline);
    assert "\\nn"[..2] == EscapedNewline && "\\nn"[2..] == "n";
    assert "na" + "n" == "nan";
  }

  // ---------------------------------------------------------------------
  // create_new_cols
  // ---------------------------------------------------------------------

  /** The names row by row: specifier values outside, column labels inside. */
  function NameGrid(specifiers: seq<Value>, others: seq<Label>): seq<seq<string>>
  {
    seq(|specifiers|, i requires 0 <= i < |specifiers| =>
      seq(|others|, j requires 0 <= j < |others| => NewColumnName(others[j], specifiers[i])))
  }

  /** `create_new_cols(specifier_column, other_columns)`. */
  function CreateNewCols(specifiers: seq<Value>, others: seq<Label>): seq<string>
  {
    Concat(NameGrid(specifiers, others))
  }

  /** There is one name per (specifier value, column) pair. */
  lemma CreateNewColsLength(specifiers: seq<Value>, others: seq<Label>)
    ensures |CreateNewCols(specifiers, others)| == |specifiers| * |others|
  {
    ConcatGridLength(NameGrid(specifiers, others), |others|);
  }

  /**
   Specifier values are the outer loop: the name at `i * |others| + j` is
   built from specifier value `i` and column `j`.
   */
  lemma CreateNewColsAt(specifiers: seq<Value>, others: seq<Label>, i: nat, j: nat)
    requires i < |specifiers| && j < |others|
    ensures i * |others| + j < |CreateNewCols(specifiers, others)|
    ensures CreateNewCols(specifiers, others)[i * |others| + j] == NewColumnName(others[j], specifiers[i])
  {
    ConcatGridAt(NameGrid(specifiers, others), |others|, i, j);
  }

  // ---------------------------------------------------------------------
  // create_transformed_df
  // ---------------------------------------------------------------------

  /** The cells of the chosen columns, row by row. */
  function ValueGrid(df: Table, others: seq<Label>): seq<seq<Value>>
    requires Rectangular(df.rows, |df.columns|)
    requires forall j :: 0 <= j < |others| ==> others[j] in df.columns
  {
    seq(|df.rows|, i requires 0 <= i < |df.rows| =>
      seq(|others|, j requires 0 <= j < |others| => df.rows[i][IndexOf(df.columns, others[j])]))
  }

  /** `df.loc[:, other_columns].to_numpy().flatten()`: row-major. */
  function Flatten(df: Table, others: seq<Label>): seq<Value>
    requires Rectangular(df.rows, |df.columns|)
    requires forall j :: 0 <= j < |others| ==> others[j] in df.columns
  {
    Concat(ValueGrid(df, others))
  }

  /** One value per (row, chosen column) pair. */
  lemma FlattenLength(df: Table, others: seq<Label>)
    requires Rectangular(df.rows, |df.columns|)
    requires forall j :: 0 <= j < |others| ==> others[j] in df.columns
    ensures |Flatten(df, others)| == |df.rows| * |others|
  {
    ConcatGridLength(ValueGrid(df, others), |others|);
  }

  /** Rows are the outer loop: the value at `i * |others| + j` is row `i`'s cell in column `others[j]`. */
  lemma FlattenAt(df: Table, others: seq<Label>, i: nat, j: nat)
    requires Rectangular(df.rows, |df.columns|)
    requires forall j :: 0 <= j < |others| ==> others[j] in df.columns
    requires i < |df.rows| && j < |others|
    ensures i * |others| + j < |Flatten(df, others)|
    ensures Flatten(df, others)[i * |others| + j] == df.rows[i][IndexOf(df.columns, others[j])]
  {
    ConcatGridAt(ValueGrid(df, others), |others|, i, j);
  }

  /**
   `create_transformed_df(df, specifier_column, other_columns, year)`.
   `.loc` raises for a label the frame lacks. The mask of `filtered_values`
   is `np.array` of an empty list when the block is empty; that array has a
   float dtype, and indexing with it raises `IndexError`. The frame
   constructor raises when the values do not fill the names; `insert` raises
   when "year" is already a column.
   */
  function CreateTransformedDf(df: Table, specifiers: seq<Value>, others: seq<Label>, year: Value): Result<Table>
    requires WellFormed(df)
  {
    var names := CreateNewCols(specifiers, others);
    if !(forall j :: 0 <= j < |others| ==> others[j] in df.columns) then Err(KeyError)
    else
      var values := Flatten(df, others);
      if |values| == 0 then Err(IndexError)
      else if |values| != |names| then Err(LengthMismatch)
      else
        var labels := seq(|names|, k requires 0 <= k < |names| => Plain(names[k]));
        if YearLabel in labels then Err(DuplicateColumn)
        else Ok(Table([YearLabel] + labels, [[year] + values]))
  }

  lemma MulCancel(a: nat, b: nat, m: nat)
    requires m > 0 && a * m == b * m
    ensures a == b
  {
    if a < b {
      RowMajorBound(a, 0, m, b);
    } else if b < a {
      RowMajorBound(b, 0, m, a);
    }
  }

  /** No synthesized name is "year". */
  lemma {:induction false} NoYearName(specifiers: seq<Value>, others: seq<Label>)
    ensures "year" !in CreateNewCols(specifiers, others)
  {
    var grid := NameGrid(specifiers, others);
    if "year" in Concat(grid) {
      ConcatMember(grid, "year");
      var i :| 0 <= i < |grid| && "year" in grid[i];
      var j :| 0 <= j < |others| && grid[i][j] == "year";
      NameKeepsSeparator(others[j], specifiers[i]);
    }
  }

  /**
   The call fails with `KeyError` exactly when a requested column is
   missing; otherwise with `IndexError` exactly when the block is empty (no
   row or no requested column); otherwise with `LengthMismatch` exactly when
   the row count differs from the number of specifier values. The "year"
   insert never fails, so the call succeeds in every other case.
   */
  lemma CreateTransformedDfOutcome(df: Table, specifiers: seq<Value>, others: seq<Label>, year: Value)
    requires WellFormed(df)
    ensures var r := CreateTransformedDf(df, specifiers, others, year);
      && (r == Err(KeyError) <==> exists j :: 0 <= j < |others| && others[j] !in df.columns)
      && (r == Err(IndexError) <==>
            (forall j :: 0 <= j < |others| ==> others[j] in df.columns) &&
            (|df.rows| == 0 || |others| == 0))
      && (r == Err(LengthMismatch) <==>
            (forall j :: 0 <= j < |others| ==> others[j] in df.columns) &&
            |df.rows| > 0 && |others| > 0 && |df.rows| != |specifiers|)
      && r != Err(DuplicateColumn)
      && (r.Ok? <==>
            (forall j :: 0 <= j < |others| ==> others[j] in df.columns) &&
            |df.rows| > 0 && |others| > 0 && |df.rows| == |specifiers|)
  {
    var names := CreateNewCols(specifiers, others);
    CreateNewColsLength(specifiers, others);
    NoYearName(specifiers, others);
    if forall j :: 0 <= j < |others| ==> others[j] in df.columns {
      FlattenLength(df, others);
      if |df.rows| > 0 && |others| > 0 {
        MulPositive(|df.rows|, |others|);
        if |df.rows| * |others| == |specifiers| * |others| {
          MulCancel(|df.rows|, |specifiers|, |others|);
        }
      }
    }
  }

  lemma MulPositive(a: nat, b: nat)
    requires a > 0 && b > 0
    ensures a * b > 0
  {
  }

  /**
   On success the frame has one row, as many cells as names, and
   `|specifiers| * |others| + 1` of each: "year" above the year first.
   */
  lemma CreateTransformedDfShape(df: Table, specifiers: seq<Value>, others: seq<Label>, year: Value)
    requires WellFormed(df)
    requires CreateTransformedDf(df, specifiers, others, year).Ok?
    ensures var t := CreateTransformedDf(df, specifiers, others, year).value;
      && |t.rows| == 1
      && |t.columns| == |t.rows[0]| == |specifiers| * |others| + 1
      && t.columns[0] == YearLabel && t.rows[0][0] == year
  {
    CreateNewColsLength(specifiers, others);
    FlattenLength(df, others);
  }

  /**
   On success, the cell at `1 + i * |others| + j` is row `i`'s cell in
   column `others[j]`, under the name built from specifier value `i` and
   that column.
   */
  lemma CreateTransformedDfAt(df: Table, specifiers: seq<Value>, others: seq<Label>, year: Value, i: nat, j: nat)
    requires WellFormed(df)
    requires CreateTransformedDf(df, specifiers, others, year).Ok?
    requires i < |specifiers| && j < |others|
    ensures var t := CreateTransformedDf(df, specifiers, others, year).value;
      && i < |df.rows| && others[j] in df.columns
      && 1 + i * |others| + j < |t.columns| == |t.rows[0]|
      && t.columns[1 + i * |others| + j] == Plain(NewColumnName(others[j], specifiers[i]))
      && t.rows[0][1 + i * |others| + j] == df.rows[i][IndexOf(df.columns, others[j])]
  {
    CreateTransformedDfOutcome(df, specifiers, others, year);
    CreateTransformedDfShape(df, specifiers, others, year);
    CreateNewColsAt(specifiers, others, i, j);
    FlattenAt(df, others, i, j);
  }

  // ---------------------------------------------------------------------
  // transform_one_df
  // ---------------------------------------------------------------------

  /** `df[df[key].isin(interesting)]`: the rows whose cell `k` is interesting, in order. */
  function KeepRows(rows: seq<seq<Value>>, k: nat, interesting: set<Value>): (kept: seq<seq<Value>>)
    requires forall i :: 0 <= i < |rows| ==> k < |rows[i]|
    ensures |kept| <= |rows|
    ensures forall t :: 0 <= t < |kept| ==> kept[t] in rows && kept[t][k] in interesting
  {
    if rows == [] then []
    else (if rows[0][k] in interesting then [rows[0]] else []) + KeepRows(rows[1..], k, interesting)
  }

  /** The positions, from `i` on, of the rows whose cell `k` is interesting, ascending. */
  function KeptPositions(rows: seq<seq<Value>>, k: nat, interesting: set<Value>, i: nat): seq<nat>
    requires forall i :: 0 <= i < |rows| ==> k < |rows[i]|
    requires i <= |rows|
    decreases |rows| - i
  {
    if i == |rows| then []
    else (if rows[i][k] in interesting then [i] else []) + KeptPositions(rows, k, interesting, i + 1)
  }

  /** The positions lie in `[i, |rows|)` and ascend strictly. */
  lemma {:induction false} KeptPositionsAscend(rows: seq<seq<Value>>, k: nat, interesting: set<Value>, i: nat)
    requires forall i :: 0 <= i < |rows| ==> k < |rows[i]|
    requires i <= |rows|
    ensures forall t :: 0 <= t < |KeptPositions(rows, k, interesting, i)| ==>
      i <= KeptPositions(rows, k, interesting, i)[t] < |rows|
    ensures forall a, b :: 0 <= a < b < |KeptPositions(rows, k, interesting, i)| ==>
      KeptPositions(rows, k, interesting, i)[a] < KeptPositions(rows, k, interesting, i)[b]
    decreases |rows| - i
  {
    if i < |rows| {
      KeptPositionsAscend(rows, k, interesting, i + 1);
      var rest := KeptPositions(rows, k, interesting, i + 1);
      var head: seq<nat> := if rows[i][k] in interesting then [i] else [];
      var ix := KeptPositions(rows, k, interesting, i);
      assert ix == head + rest;
      forall t | |head| <= t < |ix|
        ensures ix[t] == rest[t - |head|]
      {
      }
    }
  }

  /** A position from `i` on is listed exactly when its row's cell `k` is interesting. */
  lemma {:induction false} KeptPositionsExact(rows: seq<seq<Value>>, k: nat, interesting: set<Value>, i: nat)
    requires forall i :: 0 <= i < |rows| ==> k < |rows[i]|
    requires i <= |rows|
    ensures forall p :: i <= p < |rows| ==>
      (p in KeptPositions(rows, k, interesting, i) <==> rows[p][k] in interesting)
    decreases |rows| - i
  {
    if i < |rows| {
      KeptPositionsExact(rows, k, interesting, i + 1);
      KeptPositionsAscend(rows, k, interesting, i + 1);
      var rest := KeptPositions(rows, k, interesting, i + 1);
      var head: seq<nat> := if rows[i][k] in interesting then [i] else [];
      assert KeptPositions(rows, k, interesting, i) == head + rest;
      assert i !in rest;
    }
  }

  /** `kept` lists the rows of `rows` at the positions `ix`, in order. */
  predicate AtPositions(kept: seq<seq<Value>>, rows: seq<seq<Value>>, ix: seq<nat>)
  {
    && |kept| == |ix|
    && forall t :: 0 <= t < |ix| ==> ix[t] < |rows| && kept[t] == rows[ix[t]]
  }

  lemma AtPositionsCons(kept: seq<seq<Value>>, rows: seq<seq<Value>>, ix: seq<nat>, i: nat)
    requires AtPositions(kept, rows, ix) && i < |rows|
    ensures AtPositions([rows[i]] + kept, rows, [i] + ix)
  {
    var kept2, ix2 := [rows[i]] + kept, [i] + ix;
    forall t | 1 <= t < |ix2|
      ensures ix2[t] < |rows| && kept2[t] == rows[ix2[t]]
    {
      assert ix2[t] == ix[t - 1] && kept2[t] == kept[t - 1];
    }
  }

  /** The rows `KeepRows` keeps from `rows[i..]` are the rows at those positions, in order. */
  lemma {:induction false} KeepRowsAtPositions(rows: seq<seq<Value>>, k: nat, interesting: set<Value>, i: nat)
    requires forall i :: 0 <= i < |rows| ==> k < |rows[i]|
    requires i <= |rows|
    ensures AtPositions(KeepRows(rows[i..], k, interesting), rows, KeptPositions(rows, k, interesting, i))
    decreases |rows| - i
  {
    if i < |rows| {
      KeepRowsAtPositions(rows, k, interesting, i + 1);
      KeepRowsStep(rows, k, interesting, i);
      var rest := KeptPositions(rows, k, interesting, i + 1);
      var kept' := KeepRows(rows[i + 1..], k, interesting);
      if rows[i][k] in interesting {
        assert KeptPositions(rows, k, interesting, i) == [i] + rest;
        assert KeepRows(rows[i..], k, interesting) == [rows[i]] + kept';
        AtPositionsCons(kept', rows, rest, i);
      } else {
        assert KeptPositions(rows, k, interesting, i) == rest;
        assert KeepRows(rows[i..], k, interesting) == kept';
      }
    }
  }

  /** One step of the filter on `rows[i..]`. */
  lemma KeepRowsStep(rows: seq<seq<Value>>, k: nat, interesting: set<Value>, i: nat)
    requires forall i :: 0 <= i < |rows| ==> k < |rows[i]|
    requires i < |rows|
    ensures KeepRows(rows[i..], k, interesting) ==
      (if rows[i][k] in interesting then [rows[i]] else []) + KeepRows(rows[i + 1..], k, interesting)
  {
    assert rows[i..][1..] == rows[i + 1..];
    assert rows[i..][0] == rows[i];
  }

  /**
   The kept rows are the input rows at strictly increasing positions, and a
   position is among them exactly when that row's cell `k` is interesting:
   filtering keeps the matching rows, all of them, in their original order.
   */
  lemma KeepRowsSelects(rows: seq<seq<Value>>, k: nat, interesting: set<Value>)
    requires forall i :: 0 <= i < |rows| ==> k < |rows[i]|
    ensures |KeepRows(rows, k, interesting)| == |KeptPositions(rows, k, interesting, 0)|
    ensures forall t :: 0 <= t < |KeptPositions(rows, k, interesting, 0)| ==>
      KeptPositions(rows, k, interesting, 0)[t] < |rows| &&
      KeepRows(rows, k, interesting)[t] == rows[KeptPositions(rows, k, interesting, 0)[t]]
    ensures forall a, b :: 0 <= a < b < |KeptPositions(rows, k, interesting, 0)| ==>
      KeptPositions(rows, k, interesting, 0)[a] < KeptPositions(rows, k, interesting, 0)[b]
    ensures forall p :: 0 <= p < |rows| ==>
      (p in KeptPositions(rows, k, interesting, 0) <==> rows[p][k] in interesting)
  {
    KeptPositionsAscend(rows, k, interesting, 0);
    KeptPositionsExact(rows, k, interesting, 0);
    KeepRowsAtPositions(rows, k, interesting, 0);
    assert rows[0..] == rows;
  }

  /** `df[key].to_numpy().flatten()` on the filtered frame. */
  function SpecifierColumn(rows: seq<seq<Value>>, k: nat): (col: seq<Value>)
    requires forall i :: 0 <= i < |rows| ==> k < |rows[i]|
    ensures |col| == |rows|
  {
    seq(|rows|, i requires 0 <= i < |rows| => rows[i][k])
  }

  /** `df.columns[df.columns != key]`: every label except `key`, in order. */
  function OtherColumns(columns: seq<Label>, key: Label): (others: seq<Label>)
    ensures forall l :: l in others <==> l in columns && l != key
  {
    if columns == [] then []
    else (if columns[0] == key then [] else [columns[0]]) + OtherColumns(columns[1..], key)
  }

  /** Among distinct labels, dropping `key` removes exactly its one position. */
  lemma {:induction false} OtherColumnsRemoves(columns: seq<Label>, key: Label)
    requires Distinct(columns) && key in columns
    ensures OtherColumns(columns, key) ==
            columns[..IndexOf(columns, key)] + columns[IndexOf(columns, key) + 1..]
  {
    if columns[0] == key {
      OtherColumnsAbsent(columns[1..], key);
    } else {
      OtherColumnsRemoves(columns[1..], key);
      assert columns == [columns[0]] + columns[1..];
    }
  }

  /** Labels without `key` are all kept. */
  lemma {:induction false} OtherColumnsAbsent(columns: seq<Label>, key: Label)
    requires key !in columns
    ensures OtherColumns(columns, key) == columns
  {
    if columns != [] {
      OtherColumnsAbsent(columns[1..], key);
    }
  }

  /**
   `transform_one_df(df, specifier_key, interesting_values_basic_table, year)`:
   `KeyError` when the key is not a column, otherwise what
   `create_transformed_df` makes of the interesting rows.
   */
  function TransformOneDf(df: Table, key: Label, interesting: set<Value>, year: Value): Result<Table>
    requires WellFormed(df)
  {
    if key !in df.columns then Err(KeyError)
    else
      var k := IndexOf(df.columns, key);
      var kept := KeepRows(df.rows, k, interesting);
      TransformKept(df, k, kept, key, year)
  }

  /** The second half of `transform_one_df`, on the rows the filter kept. */
  function TransformKept(df: Table, k: nat, kept: seq<seq<Value>>, key: Label, year: Value): Result<Table>
    requires WellFormed(df) && k < |df.columns|
    requires Rectangular(kept, |df.columns|)
  {
    CreateTransformedDf(Table(df.columns, kept), SpecifierColumn(kept, k), OtherColumns(df.columns, key), year)
  }

  /** The filtered frame is well formed, and its specifier column lines up with its rows. */
  lemma FilteredRowsWellFormed(df: Table, key: Label, interesting: set<Value>)
    requires WellFormed(df) && key in df.columns
    ensures var k := IndexOf(df.columns, key);
      && Rectangular(KeepRows(df.rows, k, interesting), |df.columns|)
      && WellFormed(Table(df.columns, KeepRows(df.rows, k, interesting)))
  {
    var k := IndexOf(df.columns, key);
    var kept := KeepRows(df.rows, k, interesting);
    forall t | 0 <= t < |kept|
      ensures |kept[t]| == |df.columns|
    {
      var i :| 0 <= i < |df.rows| && df.rows[i] == kept[t];
    }
  }

  /**
   The call fails with `KeyError` exactly when the key is not a column, and
   with `IndexError` exactly when it is one but the filter keeps no row or
   the key is the only column. It succeeds in every other case: the
   specifier column always has one value per kept row, so the constructor
   never meets a length mismatch.
   */
  lemma TransformOneDfOutcome(df: Table, key: Label, interesting: set<Value>, year: Value)
    requires WellFormed(df)
    ensures TransformOneDf(df, key, interesting, year) == Err(KeyError) <==> key !in df.columns
    ensures TransformOneDf(df, key, interesting, year) == Err(IndexError) <==>
      key in df.columns &&
      (|KeepRows(df.rows, IndexOf(df.columns, key), interesting)| == 0 || |df.columns| == 1)
    ensures TransformOneDf(df, key, interesting, year).Ok? <==>
      key in df.columns &&
      |KeepRows(df.rows, IndexOf(df.columns, key), interesting)| > 0 && |df.columns| > 1
  {
    if key in df.columns {
      FilteredRowsWellFormed(df, key, interesting);
      var k := IndexOf(df.columns, key);
      var kept := KeepRows(df.rows, k, interesting);
      OtherColumnsRemoves(df.columns, key);
      CreateTransformedDfOutcome(Table(df.columns, kept), SpecifierColumn(kept, k), OtherColumns(df.columns, key), year);
    }
  }

  /**
   On success, with `kept` the interesting rows and `others` every column
   but the key: the key is not among `others`, which has one label fewer
   than the frame, and the result is one row of `|kept| * |others| + 1`
   cells under as many names, "year" above the year first.
   */
  lemma TransformOneDfShape(df: Table, key: Label, interesting: set<Value>, year: Value)
    requires WellFormed(df) && key in df.columns
    requires |KeepRows(df.rows, IndexOf(df.columns, key), interesting)| > 0 && |df.columns| > 1
    ensures TransformOneDf(df, key, interesting, year).Ok?
    ensures var t := TransformOneDf(df, key, interesting, year).value;
      var kept := KeepRows(df.rows, IndexOf(df.columns, key), interesting);
      var others := OtherColumns(df.columns, key);
      && key !in others
      && |others| == |df.columns| - 1
      && |t.rows| == 1
      && |t.columns| == |t.rows[0]| == |kept| * |others| + 1
      && t.columns[0] == YearLabel && t.rows[0][0] == year
  {
    TransformOneDfOutcome(df, key, interesting, year);
    FilteredRowsWellFormed(df, key, interesting);
    var k := IndexOf(df.columns, key);
    var kept := KeepRows(df.rows, k, interesting);
    OtherColumnsRemoves(df.columns, key);
    CreateTransformedDfShape(Table(df.columns, kept), SpecifierColumn(kept, k), OtherColumns(df.columns, key), year);
  }

  /**
   Name/value alignment: at `1 + i * |others| + j` sits the cell of kept
   row `i` in column `others[j]`, under the name built from that same row's
   specifier value and that column.
   */
  lemma TransformOneDfAt(df: Table, key: Label, interesting: set<Value>, year: Value, i: nat, j: nat)
    requires WellFormed(df) && key in df.columns
    requires i < |KeepRows(df.rows, IndexOf(df.columns, key), interesting)|
    requires j < |OtherColumns(df.columns, key)|
    ensures TransformOneDf(df, key, interesting, year).Ok?
    ensures var t := TransformOneDf(df, key, interesting, year).value;
      var k := IndexOf(df.columns, key);
      var kept := KeepRows(df.rows, k, interesting);
      var others := OtherColumns(df.columns, key);
      && |t.rows| == 1 && |kept[i]| == |df.columns|
      && 1 + i * |others| + j < |t.columns| == |t.rows[0]|
      && t.columns[1 + i * |others| + j] == Plain(NewColumnName(others[j], kept[i][k]))
      && t.rows[0][1 + i * |others| + j] == kept[i][IndexOf(df.columns, others[j])]
  {
    TransformOneDfOutcome(df, key, interesting, year);
    FilteredRowsWellFormed(df, key, interesting);
    var k := IndexOf(df.columns, key);
    var kept := KeepRows(df.rows, k, interesting);
    CreateTransformedDfAt(Table(df.columns, kept), SpecifierColumn(kept, k), OtherColumns(df.columns, key), year, i, j);
    CreateTransformedDfShape(Table(df.columns, kept), SpecifierColumn(kept, k), OtherColumns(df.columns, key), year);
  }

  /** A year whose table keeps no interesting row raises `IndexError`. */
  lemma NoKeptRowRaises()
    ensures TransformOneDf(Table([Plain("k"), Plain("v")], [["a", "1"]]), Plain("k"), {}, "2020")
            == Err(IndexError)
  {
    var df := Table([Plain("k"), Plain("v")], [["a", "1"]]);
    assert IndexOf(df.columns, Plain("k")) == 0;
    assert KeepRows(df.rows, 0, {}) == [];
    TransformOneDfOutcome(df, Plain("k"), {}, "2020");
  }

  /** A frame holding only the key column raises `IndexError`. */
  lemma KeyOnlyRaises()
    ensures TransformOneDf(Table([Plain("k")], [["a"]]), Plain("k"), {"a"}, "2020") == Err(IndexError)
  {
    TransformOneDfOutcome(Table([Plain("k")], [["a"]]), Plain("k"), {"a"}, "2020");
  }
}

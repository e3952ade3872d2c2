/**
 * The ingredient parser (`parse_data`): discovers the ingredient columns by
 * their header marker, fills missing cells, cleans every ingredient cell,
 * builds the ingredient-type map, joins the cells of a row into one
 * `Ingredients` string and turns that string into one count column per
 * vocabulary token.
 */
module Parse {
  import opened Text

  const Marker: string := "Ingredients: "
  const RecipeNameColumn: string := "Recipe Name"
  const IngredientsColumn: string := "Ingredients"

  /** A cell as the CSV reader delivers it: missing, or some text. */
  datatype Cell = Missing | Value(text: string)

  datatype RawTable = RawTable(header: seq<string>, rows: seq<seq<Cell>>)

  /** The recipe table `parse_data` returns: the kept columns with their cells, then one count column per token. */
  datatype RecipeTable = RecipeTable(
    columns: seq<string>,
    rows: seq<seq<string>>,
    vocabulary: seq<string>,
    counts: seq<seq<nat>>)

  datatype Parsed = Parsed(table: RecipeTable, typeMap: map<string, string>, otherColumns: seq<string>)

  datatype ParseError =
    | DuplicateColumn     // a renamed header repeats another header: `data[col]` is then a frame and `.str` fails
    | NoIngredientColumns // the melted frame's empty value column holds floats and `.str` fails on it
    | IngredientsCategory // a category named `Ingredients`: the joined string overwrites its column, which is then dropped and missing when the vectorizer reads it
    | EmptyVocabulary     // the count vectorizer refuses a corpus without a single token

  datatype Result<T, E> = Success(value: T) | Failure(error: E)

  predicate Distinct<T(==)>(s: seq<T>) {
    forall i, j :: 0 <= i < j < |s| ==> s[i] != s[j]
  }

  /** The position of the first occurrence of `x`. */
  function IndexOf<T(==)>(s: seq<T>, x: T): (k: nat)
    requires x in s
    ensures k < |s| && s[k] == x
    ensures forall i :: 0 <= i < k ==> s[i] != x
  {
    if s[0] == x then 0 else 1 + IndexOf(s[1..], x)
  }

  lemma {:induction false} IndexOfConcat<T>(s: seq<T>, t: seq<T>, x: T)
    requires x in s + t
    ensures IndexOf(s + t, x) == if x in s then IndexOf(s, x) else |s| + IndexOf(t, x)
  {
    if s == [] {
      assert s + t == t;
    } else if s[0] != x {
      assert (s + t)[1..] == s[1..] + t;
      IndexOfConcat(s[1..], t, x);
    }
  }

  /** Column names are unique (the CSV reader renames repeated headers) and every row is as wide as the header. */
  predicate WellFormed(raw: RawTable) {
    && Distinct(raw.header)
    && forall r :: 0 <= r < |raw.rows| ==> |raw.rows[r]| == |raw.header|
  }

  // ---------------------------------------------------------------------------
  // Column discovery
  // ---------------------------------------------------------------------------

  predicate IsIngredientColumn(h: string) { Contains(h, Marker) }

  /** The header with every occurrence of the marker removed. */
  function CategoryName(h: string): string { ReplaceAll(h, Marker, []) }

  /** Positions of the columns whose header holds the marker, in header order. */
  function IngredientPositions(header: seq<string>): (ps: seq<nat>)
    ensures forall k :: 0 <= k < |ps| ==> ps[k] < |header| && IsIngredientColumn(header[ps[k]])
    ensures forall j :: 0 <= j < |header| && IsIngredientColumn(header[j]) ==> j in ps
    ensures forall k, l :: 0 <= k < l < |ps| ==> ps[k] < ps[l]
  {
    if header == [] then []
    else
      var n := |header| - 1;
      IngredientPositions(header[..n]) + (if IsIngredientColumn(header[n]) then [n] else [])
  }

  /** Positions of every other column, in header order. */
  function KeptPositions(header: seq<string>): (ps: seq<nat>)
    ensures forall k :: 0 <= k < |ps| ==> ps[k] < |header| && !IsIngredientColumn(header[ps[k]])
    ensures forall j :: 0 <= j < |header| && !IsIngredientColumn(header[j]) ==> j in ps
    ensures forall k, l :: 0 <= k < l < |ps| ==> ps[k] < ps[l]
  {
    if header == [] then []
    else
      var n := |header| - 1;
      KeptPositions(header[..n]) + (if IsIngredientColumn(header[n]) then [] else [n])
  }

  /** The header after `raw_df.rename(ingredient_columns, axis=1)`. */
  function Renamed(header: seq<string>): seq<string>
  {
    seq(|header|, j requires 0 <= j < |header| =>
      if IsIngredientColumn(header[j]) then CategoryName(header[j]) else header[j])
  }

  /** The category names, in header order. */
  function Categories(header: seq<string>): seq<string>
  {
    var ps := IngredientPositions(header);
    seq(|ps|, k requires 0 <= k < |ps| => CategoryName(header[ps[k]]))
  }

  /** The renamed columns that are neither the recipe name nor a category, in header order. */
  function OtherColumns(header: seq<string>): seq<string>
  {
    FilterOther(Renamed(header), Categories(header))
  }

  /** A column is kept when it is neither the recipe name nor a category. */
  function KeptOther(x: string, cats: seq<string>): seq<string>
  {
    if x != RecipeNameColumn && x !in cats then [x] else []
  }

  function FilterOther(columns: seq<string>, cats: seq<string>): (r: seq<string>)
    ensures forall x :: x in r <==> x in columns && x != RecipeNameColumn && x !in cats
  {
    if columns == [] then []
    else
      var n := |columns| - 1;
      FilterOther(columns[..n], cats) + KeptOther(columns[n], cats)
  }

  /** The filter keeps header order and multiplicity: it distributes over concatenation. */
  lemma {:induction false} FilterOtherAppend(a: seq<string>, b: seq<string>, cats: seq<string>)
    ensures FilterOther(a + b, cats) == FilterOther(a, cats) + FilterOther(b, cats)
    decreases |b|
  {
    if b == [] {
      assert a + b == a;
    } else {
      var n := |b| - 1;
      FilterOtherAppend(a, b[..n], cats);
      FilterOtherStep(a, b, cats);
      Assoc(FilterOther(a, cats), FilterOther(b[..n], cats), KeptOther(b[n], cats));
    }
  }

  /** One unfolding of the filter on both `a + b` and `b`. */
  lemma FilterOtherStep(a: seq<string>, b: seq<string>, cats: seq<string>)
    requires b != []
    ensures FilterOther(a + b, cats) == FilterOther(a + b[..|b| - 1], cats) + KeptOther(b[|b| - 1], cats)
    ensures FilterOther(b, cats) == FilterOther(b[..|b| - 1], cats) + KeptOther(b[|b| - 1], cats)
  {
    var n := |b| - 1;
    var c := a + b;
    FilterOtherUnfold(c, cats);
    FilterOtherUnfold(b, cats);
    var front := c[..|c| - 1];
    assert front == a + b[..n];
    assert c[|c| - 1] == b[n];
    FilterOtherSame(front, a + b[..n], cats);
  }

  lemma FilterOtherSame(x: seq<string>, y: seq<string>, cats: seq<string>)
    requires x == y
    ensures FilterOther(x, cats) == FilterOther(y, cats)
  {
  }

  lemma FilterOtherUnfold(c: seq<string>, cats: seq<string>)
    requires c != []
    ensures FilterOther(c, cats) == FilterOther(c[..|c| - 1], cats) + KeptOther(c[|c| - 1], cats)
  {
  }

  /** A header `"Ingredients: " + rest` names the category `rest`, when `rest` holds no second marker. */
  lemma CategoryOfMarkedHeader(rest: string)
    requires !Contains(rest, Marker)
    ensures IsIngredientColumn(Marker + rest)
    ensures CategoryName(Marker + rest) == rest
  {
    assert Marker <= Marker + rest;
    ReplaceAllStripsPrefix(Marker, rest);
  }

  /**
   * When the renamed header is free of repetitions, `other_columns` is exactly
   * the set of columns without the marker, except the recipe name.
   */
  lemma OtherColumnsAreMetadata(header: seq<string>, x: string)
    requires Distinct(Renamed(header))
    ensures x in OtherColumns(header) <==>
      (x in header && !IsIngredientColumn(x) && x != RecipeNameColumn)
  {
    var rn := Renamed(header);
    var ps := IngredientPositions(header);
    var cats := Categories(header);
    assert forall k :: 0 <= k < |ps| ==> cats[k] == rn[ps[k]];
    if x in header && !IsIngredientColumn(x) && x != RecipeNameColumn {
      var j :| 0 <= j < |header| && header[j] == x;
      assert rn[j] == x;
      forall k | 0 <= k < |cats| ensures cats[k] != x {
        assert ps[k] != j;
      }
    }
    if x in OtherColumns(header) {
      var j :| 0 <= j < |rn| && rn[j] == x;
      forall k | 0 <= k < |ps| ensures ps[k] != j {
        assert cats[k] == rn[ps[k]];
      }
      assert IsIngredientColumn(header[j]) ==> j in ps;
      assert header[j] == x;
    }
  }

  // ---------------------------------------------------------------------------
  // Cleaning (`data.fillna("")` and `clean_ingredient_names`)
  // ---------------------------------------------------------------------------

  function Fill(c: Cell): string
  {
    match c
    case Missing => []
    case Value(t) => t
  }

  function FillMissing(rows: seq<seq<Cell>>): (r: seq<seq<string>>)
    ensures |r| == |rows|
    ensures forall i :: 0 <= i < |rows| ==> |r[i]| == |rows[i]|
  {
    seq(|rows|, i requires 0 <= i < |rows| =>
      seq(|rows[i]|, j requires 0 <= j < |rows[i]| => Fill(rows[i][j])))
  }

  /** The pattern `[^a-zA-Z,_]` removes all but these. */
  predicate IsNameChar(c: char) { IsUpperAscii(c) || IsLowerAscii(c) || c == ',' || c == '_' }

  /** What a cleaned cell is made of. */
  predicate IsCleanChar(c: char) { IsLowerAscii(c) || c == ',' || c == '_' }

  /** Deletes every character outside `IsNameChar`; each name character survives as often as it occurs. */
  function KeepNameChars(s: string): (r: string)
    ensures forall i :: 0 <= i < |r| ==> IsNameChar(r[i])
    ensures forall c :: IsNameChar(c) ==> multiset(r)[c] == multiset(s)[c]
    ensures (forall i :: 0 <= i < |s| ==> IsNameChar(s[i])) ==> r == s
  {
    if s == [] then []
    else
      var head := if IsNameChar(s[0]) then [s[0]] else [];
      var rest := KeepNameChars(s[1..]);
      KeepNameCharsStep(s, head, rest);
      head + rest
  }

  /** The contract of `KeepNameChars` carries over from the tail to the whole string. */
  lemma KeepNameCharsStep(s: string, head: string, rest: string)
    requires s != [] && head == (if IsNameChar(s[0]) then [s[0]] else [])
    requires forall i :: 0 <= i < |rest| ==> IsNameChar(rest[i])
    requires forall c :: IsNameChar(c) ==> multiset(rest)[c] == multiset(s[1..])[c]
    requires (forall i :: 0 <= i < |s[1..]| ==> IsNameChar(s[1..][i])) ==> rest == s[1..]
    ensures forall i :: 0 <= i < |head + rest| ==> IsNameChar((head + rest)[i])
    ensures forall c :: IsNameChar(c) ==> multiset(head + rest)[c] == multiset(s)[c]
    ensures (forall i :: 0 <= i < |s| ==> IsNameChar(s[i])) ==> head + rest == s
  {
    assert s == [s[0]] + s[1..];
    assert multiset(s) == multiset([s[0]]) + multiset(s[1..]);
    assert multiset(head + rest) == multiset(head) + multiset(rest);
    if forall i :: 0 <= i < |s| ==> IsNameChar(s[i]) {
      assert forall i :: 0 <= i < |s[1..]| ==> IsNameChar(s[1..][i]) by {
        forall i | 0 <= i < |s[1..]| ensures IsNameChar(s[1..][i]) { assert s[1..][i] == s[i + 1]; }
      }
    }
  }

  /** The deletion keeps the order: filtering a concatenation filters each part. */
  lemma {:induction false} KeepNameCharsAppend(a: string, b: string)
    ensures KeepNameChars(a + b) == KeepNameChars(a) + KeepNameChars(b)
  {
    if a == [] {
      assert a + b == b;
    } else {
      assert (a + b)[1..] == a[1..] + b;
      KeepNameCharsAppend(a[1..], b);
    }
  }

  /**
   * `clean_ingredient_names`, the six rewrites in their order: a cleaned cell
   * holds only lower-case letters, commas and underscores, and never two
   * underscores in a row.
   */
  function Clean(s: string): (r: string)
    ensures forall i :: 0 <= i < |r| ==> IsCleanChar(r[i])
    ensures NoRepeat(r, '_')
  {
    var spaced := ReplaceAll(s, " ", "_");
    var joined := ReplaceAll(spaced, ",_", ",");
    var kept := KeepNameChars(joined);
    var collapsed := ReplaceRuns(kept, '_', '_');
    CollapsedNameChars(kept);
    var stripped := Strip(collapsed, IsSpace);
    LowerNameChars(stripped);
    LowerAll(stripped)
  }

  /** Collapsing underscore runs in name characters leaves name characters, no two underscores in a row and nothing to strip. */
  lemma CollapsedNameChars(kept: string)
    requires forall i :: 0 <= i < |kept| ==> IsNameChar(kept[i])
    ensures var collapsed := ReplaceRuns(kept, '_', '_');
      && Strip(collapsed, IsSpace) == collapsed
      && (forall i :: 0 <= i < |collapsed| ==> IsNameChar(collapsed[i]))
      && NoRepeat(collapsed, '_')
  {
    var collapsed := ReplaceRuns(kept, '_', '_');
    forall i | 0 <= i < |collapsed| ensures IsNameChar(collapsed[i]) {
      ReplaceRunsAlphabet(kept, '_', '_', collapsed[i]);
    }
    StripUntouched(collapsed, IsSpace);
    CollapseNoRepeat(kept, '_');
  }

  /** Lowering name characters gives clean characters and moves no underscore. */
  lemma LowerNameChars(s: string)
    requires forall i :: 0 <= i < |s| ==> IsNameChar(s[i])
    requires NoRepeat(s, '_')
    ensures forall i :: 0 <= i < |LowerAll(s)| ==> IsCleanChar(LowerAll(s)[i])
    ensures NoRepeat(LowerAll(s), '_')
  {
    var r := LowerAll(s);
    assert forall i :: 0 <= i < |s| ==> (r[i] == '_' <==> s[i] == '_');
  }

  /** A cell that is already in clean form (no space, no `,_`, no `__`, no capital) is a fixed point. */
  lemma CleanKeepsCleanCell(s: string)
    requires forall i :: 0 <= i < |s| ==> IsCleanChar(s[i])
    requires NoRepeat(s, '_')
    requires !Contains(s, ",_")
    ensures Clean(s) == s
  {
    NoSpaceNoMatch(s);
    ReplaceAllWithoutMatch(s, " ", "_");
    ReplaceAllWithoutMatch(s, ",_", ",");
    CleanPieceIsFixed(s);
  }

  /**
   * A cleaned text that can follow a comma or an underscore: clean
   * characters, no `__`, no `,_`, and no underscore in front.
   */
  predicate IsCleanTail(w: string) {
    && (forall i :: 0 <= i < |w| ==> IsCleanChar(w[i]))
    && NoRepeat(w, '_')
    && !Contains(w, ",_")
    && (w == [] || w[0] != '_')
  }

  /** One more clean character in front keeps a text clean, when it does not make a `__`. */
  lemma CleanPrefixed(x: char, w: string)
    requires forall i :: 0 <= i < |w| ==> IsCleanChar(w[i])
    requires NoRepeat(w, '_')
    requires IsCleanChar(x) && (x == '_' ==> w == [] || w[0] != '_')
    ensures forall i :: 0 <= i < |[x] + w| ==> IsCleanChar(([x] + w)[i])
    ensures NoRepeat([x] + w, '_')
  {
    assert forall i :: 0 < i < |[x] + w| ==> ([x] + w)[i] == w[i - 1];
  }

  lemma Cons2(a: char, b: char, w: string)
    ensures [a, b] + w == [a] + ([b] + w)
  {
  }

  lemma Cons3(a: char, b: char, c: char, w: string)
    ensures [a, b, c] + w == [a] + ([b] + ([c] + w))
  {
  }

  /**
   * Spaces become underscores before the ends are stripped, so a leading
   * space survives as a leading underscore.
   */
  lemma CleanKeepsLeadingSpaceAsUnderscore(w: string)
    requires IsCleanTail(w)
    ensures Clean(" " + w) == "_" + w
  {
    assert ReplaceAll(" " + w, " ", "_") == "_" + w by {
      NoSpaceNoMatch(w);
      ReplaceAllWithoutMatch(w, " ", "_");
      ReplaceAllReplacesHead(" ", w, "_");
    }
    assert ReplaceAll("_" + w, ",_", ",") == "_" + w by {
      ReplaceAllWithoutMatch(w, ",_", ",");
      ReplaceAllKeepsHead('_', w, ",_", ",");
    }
    CleanPrefixed('_', w);
    CleanPieceIsFixed("_" + w);
  }

  /**
   * Cleaning is not idempotent: the underscore left behind when two spaces
   * follow a comma forms a new `,_`, which a second pass removes.
   */
  lemma CleanIsNotIdempotentAfterCommaAndTwoSpaces(w: string)
    requires IsCleanTail(w)
    ensures Clean(",  " + w) == ",_" + w
    ensures Clean(Clean(",  " + w)) == "," + w != Clean(",  " + w)
  {
    CleanCommaTwoSpaces(w);
    CleanCommaUnderscore(w);
    assert |"," + w| != |",_" + w|;
  }

  lemma CleanCommaTwoSpaces(w: string)
    requires IsCleanTail(w)
    ensures Clean(",  " + w) == ",_" + w
  {
    var u := "_" + w;
    assert ReplaceAll(",  " + w, " ", "_") == ",__" + w by {
      NoSpaceNoMatch(w);
      ReplaceAllWithoutMatch(w, " ", "_");
      ReplaceAllReplacesHead(" ", w, "_");
      ReplaceAllReplacesHead(" ", " " + w, "_");
      Cons3(',', ' ', ' ', w);
      ReplaceAllKeepsHead(',', "  " + w, " ", "_");
      Cons2(' ', ' ', w);
      Cons3(',', '_', '_', w);
    }
    assert ReplaceAll(",__" + w, ",_", ",") == ",_" + w by {
      ReplaceAllWithoutMatch(w, ",_", ",");
      ReplaceAllKeepsHead('_', w, ",_", ",");
      Cons3(',', '_', '_', w);
      Cons2(',', '_', u);
      ReplaceAllReplacesHead(",_", u, ",");
      Cons2(',', '_', w);
    }
    CleanPrefixed('_', w);
    CleanPrefixed(',', u);
    Cons2(',', '_', w);
    CleanPieceIsFixed(",_" + w);
  }

  lemma CleanCommaUnderscore(w: string)
    requires IsCleanTail(w)
    ensures Clean(",_" + w) == "," + w
  {
    var u := "_" + w;
    CleanPrefixed('_', w);
    CleanPrefixed(',', u);
    Cons2(',', '_', w);
    assert ReplaceAll(",_" + w, " ", "_") == ",_" + w by {
      NoSpaceNoMatch(",_" + w);
      ReplaceAllWithoutMatch(",_" + w, " ", "_");
    }
    assert ReplaceAll(",_" + w, ",_", ",") == "," + w by {
      ReplaceAllWithoutMatch(w, ",_", ",");
      ReplaceAllReplacesHead(",_", w, ",");
    }
    CleanPrefixed(',', w);
    CleanPieceIsFixed("," + w);
  }

  /** The last four rewrites leave a string of clean characters without `__` as it is. */
  lemma CleanPieceIsFixed(s: string)
    requires forall i :: 0 <= i < |s| ==> IsCleanChar(s[i])
    requires NoRepeat(s, '_')
    ensures LowerAll(Strip(ReplaceRuns(KeepNameChars(s), '_', '_'), IsSpace)) == s
  {
    assert forall i :: 0 <= i < |s| ==> IsNameChar(s[i]);
    var kept := KeepNameChars(s);
    assert kept == s;
    ReplaceRunsWithoutMatch(s, '_', '_');
    var collapsed := ReplaceRuns(kept, '_', '_');
    assert collapsed == s;
    forall i | 0 <= i < |s| ensures !IsSpace(s[i]) { CleanCharIsNoSpace(s[i]); }
    StripUntouched(s, IsSpace);
    assert Strip(collapsed, IsSpace) == s;
    LowerKeepsClean(s);
  }

  lemma CleanCharIsNoSpace(c: char)
    requires IsCleanChar(c)
    ensures !IsSpace(c)
  {
  }

  lemma LowerKeepsClean(s: string)
    requires forall i :: 0 <= i < |s| ==> IsCleanChar(s[i])
    ensures LowerAll(s) == s
  {
  }

  lemma {:induction false} NoSpaceNoMatch(s: string)
    requires forall i :: 0 <= i < |s| ==> IsCleanChar(s[i])
    ensures !Contains(s, " ")
  {
    if s != [] {
      assert !(" " <= s) by { assert s[0] != ' '; }
      NoSpaceNoMatch(s[1..]);
    }
  }

  /** The cell table after a set of its columns went through `Clean`. */
  function CleanedRows(rows: seq<seq<string>>, cols: seq<nat>): (r: seq<seq<string>>)
    ensures |r| == |rows|
    ensures forall i :: 0 <= i < |rows| ==> |r[i]| == |rows[i]|
  {
    seq(|rows|, i requires 0 <= i < |rows| =>
      seq(|rows[i]|, j requires 0 <= j < |rows[i]| =>
        if j in cols then Clean(rows[i][j]) else rows[i][j]))
  }

  /** Cleans the ingredient columns one after the other, as the parser's loop over the category names does. */
  method CleanIngredientColumns(rows: seq<seq<string>>, cols: seq<nat>) returns (out: seq<seq<string>>)
    requires Distinct(cols)
    requires forall i, k :: 0 <= i < |rows| && 0 <= k < |cols| ==> cols[k] < |rows[i]|
    ensures out == CleanedRows(rows, cols)
  {
    out := rows;
    for k := 0 to |cols|
      invariant |out| == |rows|
      invariant forall i :: 0 <= i < |rows| ==> |out[i]| == |rows[i]|
      invariant forall i, j :: 0 <= i < |rows| && 0 <= j < |rows[i]| ==>
        out[i][j] == if j in cols[..k] then Clean(rows[i][j]) else rows[i][j]
    {
      var c := cols[k];
      assert c !in cols[..k];
      out := seq(|out|, i requires 0 <= i < |out| && c < |out[i]| => out[i][c := Clean(out[i][c])]);
      assert cols[..k + 1] == cols[..k] + [c];
    }
    assert cols[..|cols|] == cols;
    var spec := CleanedRows(rows, cols);
    forall i | 0 <= i < |rows| ensures out[i] == spec[i] {
      assert |out[i]| == |spec[i]|;
    }
  }

  // ---------------------------------------------------------------------------
  // Ingredient-type map
  // ---------------------------------------------------------------------------

  /** The non-empty cells of one column, as (category, cell) pairs in row order. */
  function ColumnCells(rows: seq<seq<string>>, c: nat, cat: string): (r: seq<(string, string)>)
    requires forall i :: 0 <= i < |rows| ==> c < |rows[i]|
    ensures forall e :: e in r <==>
      e.0 == cat && e.1 != [] && exists i :: 0 <= i < |rows| && rows[i][c] == e.1
  {
    if rows == [] then []
    else
      var n := |rows| - 1;
      var rest := ColumnCells(rows[..n], c, cat);
      assert forall i :: 0 <= i < n ==> rows[..n][i] == rows[i];
      rest + (if rows[n][c] != [] then [(cat, rows[n][c])] else [])
  }

  /** The first melt and its filter: the non-empty ingredient cells, column after column. */
  function CategoryCells(rows: seq<seq<string>>, cols: seq<nat>, cats: seq<string>): (r: seq<(string, string)>)
    requires |cats| == |cols|
    requires forall i, k :: 0 <= i < |rows| && 0 <= k < |cols| ==> cols[k] < |rows[i]|
    ensures forall e :: e in r <==>
      e.1 != [] && exists k, i :: 0 <= k < |cols| && 0 <= i < |rows| && cats[k] == e.0 && rows[i][cols[k]] == e.1
  {
    if cols == [] then []
    else
      var n := |cols| - 1;
      var rest := CategoryCells(rows, cols[..n], cats[..n]);
      var last := ColumnCells(rows, cols[n], cats[n]);
      PrefixCells(rows, cols, cats, cols[..n], cats[..n], rest);
      CategoryCellsStep(rows, cols, cats, rest, last);
      rest + last
  }

  /** The cells of the last column added to those of the columns before it. */
  lemma CategoryCellsStep(rows: seq<seq<string>>, cols: seq<nat>, cats: seq<string>,
                          rest: seq<(string, string)>, last: seq<(string, string)>)
    requires |cats| == |cols| && cols != []
    requires forall i, k :: 0 <= i < |rows| && 0 <= k < |cols| ==> cols[k] < |rows[i]|
    requires forall e :: e in rest <==>
      e.1 != [] && exists k, i :: 0 <= k < |cols| - 1 && 0 <= i < |rows| && cats[k] == e.0 && rows[i][cols[k]] == e.1
    requires forall e :: e in last <==>
      e.0 == cats[|cols| - 1] && e.1 != [] && exists i :: 0 <= i < |rows| && rows[i][cols[|cols| - 1]] == e.1
    ensures forall e :: e in rest + last <==>
      e.1 != [] && exists k, i :: 0 <= k < |cols| && 0 <= i < |rows| && cats[k] == e.0 && rows[i][cols[k]] == e.1
  {
    var n := |cols| - 1;
    forall e
      ensures e in rest + last <==>
        e.1 != [] && exists k, i :: 0 <= k < |cols| && 0 <= i < |rows| && cats[k] == e.0 && rows[i][cols[k]] == e.1
    {
      if e.1 != [] && exists k, i :: 0 <= k < |cols| && 0 <= i < |rows| && cats[k] == e.0 && rows[i][cols[k]] == e.1 {
        var k, i :| 0 <= k < |cols| && 0 <= i < |rows| && cats[k] == e.0 && rows[i][cols[k]] == e.1;
        if k < n {
          assert e in rest;
        } else {
          assert e in last;
        }
      }
    }
  }

  /** The cells of the columns before the last, restated on the full column list. */
  lemma PrefixCells(rows: seq<seq<string>>, cols: seq<nat>, cats: seq<string>,
                    pcols: seq<nat>, pcats: seq<string>, rest: seq<(string, string)>)
    requires |cats| == |cols| && cols != []
    requires pcols == cols[..|cols| - 1] && pcats == cats[..|cols| - 1]
    requires forall i, k :: 0 <= i < |rows| && 0 <= k < |cols| ==> cols[k] < |rows[i]|
    requires forall i, k :: 0 <= i < |rows| && 0 <= k < |pcols| ==> pcols[k] < |rows[i]|
    requires forall e :: e in rest <==>
      e.1 != [] && exists k, i :: 0 <= k < |pcols| && 0 <= i < |rows| && pcats[k] == e.0 && rows[i][pcols[k]] == e.1
    ensures forall e :: e in rest <==>
      e.1 != [] && exists k, i :: 0 <= k < |cols| - 1 && 0 <= i < |rows| && cats[k] == e.0 && rows[i][cols[k]] == e.1
  {
    var n := |cols| - 1;
    assert forall k :: 0 <= k < n ==> pcats[k] == cats[k] && pcols[k] == cols[k];
  }

  /** Splitting a cell at its commas. */
  function Pieces(v: string): seq<string> { Split(v, {','}) }

  /** The split cells' piece number `p`, in cell order: one column of the split frame. */
  function Layer(cells: seq<(string, string)>, p: nat): (r: seq<(string, string)>)
    ensures forall e :: e in r <==>
      exists j :: 0 <= j < |cells| && p < |Pieces(cells[j].1)| && e == (cells[j].0, Pieces(cells[j].1)[p])
  {
    if cells == [] then []
    else
      var n := |cells| - 1;
      var rest := Layer(cells[..n], p);
      assert forall j :: 0 <= j < n ==> cells[..n][j] == cells[j];
      rest + (if p < |Pieces(cells[n].1)| then [(cells[n].0, Pieces(cells[n].1)[p])] else [])
  }

  /** Width of the split frame. */
  function MaxPieces(cells: seq<(string, string)>): (m: nat)
    ensures forall j :: 0 <= j < |cells| ==> |Pieces(cells[j].1)| <= m
    ensures cells == [] ==> m == 0
    ensures cells != [] ==> exists j :: 0 <= j < |cells| && |Pieces(cells[j].1)| == m
  {
    if cells == [] then 0
    else
      var n := |cells| - 1;
      var m := MaxPieces(cells[..n]);
      assert forall j :: 0 <= j < n ==> cells[..n][j] == cells[j];
      if |Pieces(cells[n].1)| > m then |Pieces(cells[n].1)| else m
  }

  /** The layers from `p` on, stacked one after the other as the second `melt` does. */
  function Stack(cells: seq<(string, string)>, p: nat, m: nat): (r: seq<(string, string)>)
    decreases m - p
    ensures forall e :: e in r <==>
      exists j, q :: p <= q < m && 0 <= j < |cells| && q < |Pieces(cells[j].1)| && e == (cells[j].0, Pieces(cells[j].1)[q])
  {
    if p >= m then [] else Layer(cells, p) + Stack(cells, p + 1, m)
  }

  /** Every (category, token) pair of the melted frame, in its order. */
  function MeltPairs(cells: seq<(string, string)>): (r: seq<(string, string)>)
    ensures forall e :: e in r <==>
      exists j, q :: 0 <= j < |cells| && 0 <= q < |Pieces(cells[j].1)| && e == (cells[j].0, Pieces(cells[j].1)[q])
  {
    Stack(cells, 0, MaxPieces(cells))
  }

  /** Dropping duplicates: the first occurrence of each element, in order, without repetitions. */
  function Dedup(ps: seq<(string, string)>): (r: seq<(string, string)>)
    ensures forall x :: x in r <==> x in ps
    ensures Distinct(r)
  {
    if ps == [] then []
    else
      var n := |ps| - 1;
      var d := Dedup(ps[..n]);
      if ps[n] in d then d else d + [ps[n]]
  }

  /**
   * Dropping duplicates keeps the order of first occurrences: of two elements
   * first seen at `i < j`, the one seen at `i` comes first in the result.
   */
  lemma {:induction false} DedupKeepsFirstOrder(ps: seq<(string, string)>, i: nat, j: nat)
    requires i < j < |ps|
    requires ps[i] !in ps[..i] && ps[j] !in ps[..j]
    ensures IndexOf(Dedup(ps), ps[i]) < IndexOf(Dedup(ps), ps[j])
  {
    var n := |ps| - 1;
    var d := Dedup(ps[..n]);
    assert ps[..n][..i] == ps[..i];
    assert ps[i] in ps[..n];
    assert ps[i] in d;
    if j == n {
      assert ps[n] !in d;
      IndexOfConcat(d, [ps[n]], ps[i]);
      IndexOfConcat(d, [ps[n]], ps[n]);
    } else {
      assert ps[..n][..j] == ps[..j];
      DedupKeepsFirstOrder(ps[..n], i, j);
      assert ps[j] in ps[..n];
      if ps[n] !in d {
        IndexOfConcat(d, [ps[n]], ps[i]);
        IndexOfConcat(d, [ps[n]], ps[j]);
      }
    }
  }

  /** Indexing the pairs by token and reading them into a dictionary: a later pair overwrites an earlier one with the same token. */
  function Overwrite(ps: seq<(string, string)>): map<string, string>
  {
    if ps == [] then map[]
    else
      var n := |ps| - 1;
      Overwrite(ps[..n])[ps[n].1 := ps[n].0]
  }

  /**
   * The ingredient-type map of a sequence of (category, token) pairs: a key
   * for exactly the observed tokens, each sent to a category it was paired with.
   */
  function TypeMap(ps: seq<(string, string)>): (m: map<string, string>)
    ensures forall t :: t in m <==> exists i :: 0 <= i < |ps| && ps[i].1 == t
    ensures forall t :: t in m ==> (m[t], t) in ps
  {
    var d := Dedup(ps);
    assert forall t :: (t in Overwrite(d) <==> exists i :: 0 <= i < |ps| && ps[i].1 == t)
                       && (t in Overwrite(d) ==> (Overwrite(d)[t], t) in ps) by {
      forall t
        ensures t in Overwrite(d) <==> exists i :: 0 <= i < |ps| && ps[i].1 == t
        ensures t in Overwrite(d) ==> (Overwrite(d)[t], t) in ps
      {
        OverwriteKeys(d, t);
        if exists i :: 0 <= i < |ps| && ps[i].1 == t {
          var i :| 0 <= i < |ps| && ps[i].1 == t;
          assert ps[i] in d;
        }
      }
    }
    Overwrite(d)
  }

  lemma {:induction false} OverwriteKeys(ps: seq<(string, string)>, t: string)
    ensures t in Overwrite(ps) <==> exists i :: 0 <= i < |ps| && ps[i].1 == t
    ensures t in Overwrite(ps) ==> (Overwrite(ps)[t], t) in ps
  {
    if ps != [] {
      var n := |ps| - 1;
      OverwriteKeys(ps[..n], t);
      if t != ps[n].1 && exists i :: 0 <= i < |ps| && ps[i].1 == t {
        var i :| 0 <= i < |ps| && ps[i].1 == t;
        assert ps[..n][i].1 == t;
      }
    }
  }

  /**
   * Last write wins, after duplicates are dropped: the token `t` goes to the
   * category of the last pair with token `t` that is not a repetition of an
   * earlier pair.
   */
  lemma TypeMapLastNewPairWins(ps: seq<(string, string)>, i: nat)
    requires i < |ps| && ps[i] !in ps[..i]
    requires forall j :: i < j < |ps| && ps[j].1 == ps[i].1 ==> ps[j] in ps[..j]
    ensures ps[i].1 in TypeMap(ps) && TypeMap(ps)[ps[i].1] == ps[i].0
  {
    DedupLastNewPairWins(ps, i);
  }

  lemma {:induction false} DedupLastNewPairWins(ps: seq<(string, string)>, i: nat)
    requires i < |ps| && ps[i] !in ps[..i]
    requires forall j :: i < j < |ps| && ps[j].1 == ps[i].1 ==> ps[j] in ps[..j]
    ensures ps[i].1 in Overwrite(Dedup(ps)) && Overwrite(Dedup(ps))[ps[i].1] == ps[i].0
  {
    var n := |ps| - 1;
    if i == n {
      DedupNewLast(ps);
    } else {
      LastNewInPrefix(ps, i);
      DedupLastNewPairWins(ps[..n], i);
      LaterPairKeepsEntry(ps, i);
    }
  }

  /** The entry the last new pair sets in the list without its last pair survives that last pair. */
  lemma LaterPairKeepsEntry(ps: seq<(string, string)>, i: nat)
    requires i < |ps| - 1
    requires forall j :: i < j < |ps| && ps[j].1 == ps[i].1 ==> ps[j] in ps[..j]
    requires ps[i].1 in Overwrite(Dedup(ps[..|ps| - 1])) && Overwrite(Dedup(ps[..|ps| - 1]))[ps[i].1] == ps[i].0
    ensures ps[i].1 in Overwrite(Dedup(ps)) && Overwrite(Dedup(ps))[ps[i].1] == ps[i].0
  {
    var n := |ps| - 1;
    assert ps[n].1 == ps[i].1 ==> ps[n] in ps[..n];
    OverwriteDedupStep(ps, ps[i].1);
  }

  /** A last pair not seen before sets its token's entry. */
  lemma DedupNewLast(ps: seq<(string, string)>)
    requires ps != [] && ps[|ps| - 1] !in ps[..|ps| - 1]
    ensures ps[|ps| - 1].1 in Overwrite(Dedup(ps)) && Overwrite(Dedup(ps))[ps[|ps| - 1].1] == ps[|ps| - 1].0
  {
    var n := |ps| - 1;
    assert ps[n] !in Dedup(ps[..n]);
    OverwriteAppend(Dedup(ps[..n]), ps[n]);
  }

  /** The hypotheses of `DedupLastNewPairWins` carry over to the list without its last pair. */
  lemma LastNewInPrefix(ps: seq<(string, string)>, i: nat)
    requires i < |ps| - 1 && ps[i] !in ps[..i]
    requires forall j :: i < j < |ps| && ps[j].1 == ps[i].1 ==> ps[j] in ps[..j]
    ensures var prefix := ps[..|ps| - 1];
      && prefix[i] == ps[i] && prefix[i] !in prefix[..i] && prefix[i].1 == ps[i].1
      && forall j :: i < j < |prefix| && prefix[j].1 == prefix[i].1 ==> prefix[j] in prefix[..j]
  {
    var prefix := ps[..|ps| - 1];
    assert prefix[i] == ps[i] && prefix[..i] == ps[..i];
    forall j | i < j < |prefix| && prefix[j].1 == prefix[i].1
      ensures prefix[j] in prefix[..j]
    {
      assert prefix[j] == ps[j] && prefix[..j] == ps[..j];
    }
  }

  /** A last pair that is a repetition, or has another token, leaves the entry for `t` as it was. */
  lemma OverwriteDedupStep(ps: seq<(string, string)>, t: string)
    requires ps != []
    requires ps[|ps| - 1].1 == t ==> ps[|ps| - 1] in ps[..|ps| - 1]
    ensures t in Overwrite(Dedup(ps)) <==> t in Overwrite(Dedup(ps[..|ps| - 1]))
    ensures t in Overwrite(Dedup(ps)) ==> Overwrite(Dedup(ps))[t] == Overwrite(Dedup(ps[..|ps| - 1]))[t]
  {
    var n := |ps| - 1;
    var d := Dedup(ps[..n]);
    if ps[n] !in d {
      OverwriteAppend(d, ps[n]);
    }
  }

  lemma OverwriteAppend(d: seq<(string, string)>, x: (string, string))
    ensures Overwrite(d + [x]) == Overwrite(d)[x.1 := x.0]
  {
    assert (d + [x])[..|d|] == d;
  }

  /**
   * Not the last occurrence: in the melted order (A, x), (B, x), (A, x) the
   * repeated third pair is dropped, so `x` goes to B.
   */
  lemma TypeMapIgnoresRepeatedPair()
    ensures TypeMap([("A", "x"), ("B", "x"), ("A", "x")])["x"] == "B"
  {
    var ps := [("A", "x"), ("B", "x"), ("A", "x")];
    assert ps[..2] == [("A", "x"), ("B", "x")];
    assert ps[..2][..1] == [("A", "x")];
    assert Dedup(ps[..2][..1]) == [("A", "x")];
    assert Dedup(ps) == [("A", "x"), ("B", "x")];
  }

  /** The split of the example cells, one character at a time. */
  lemma PiecesOfExampleCells()
    ensures Pieces("xx") == ["xx"]
    ensures Pieces("yy,xx") == ["yy", "xx"]
  {
    assert Split([], {','}) == [[]];
    SplitWordHead('x', [], [[]]);
    assert ['x'] + [] == "x";
    SplitWordHead('x', "x", ["x"]);
    assert ['x'] + "x" == "xx";
    assert ",xx"[1..] == "xx";
    assert Split(",xx", {','}) == [[], "xx"];
    SplitWordHead('y', ",xx", [[], "xx"]);
    assert ['y'] + ",xx" == "y,xx";
    assert ['y'] + [[], "xx"][0] == "y";
    assert [[], "xx"][1..] == ["xx"];
    SplitWordHead('y', "y,xx", ["y", "xx"]);
    assert ['y'] + "y,xx" == "yy,xx";
    assert ['y'] + ["y", "xx"][0] == "yy";
    assert ["y", "xx"][1..] == ["xx"];
  }

  /** A leading non-comma joins the first piece of the rest. */
  lemma SplitWordHead(c: char, t: string, rest: seq<string>)
    requires c != ',' && Split(t, {','}) == rest
    ensures Split([c] + t, {','}) == [[c] + rest[0]] + rest[1..]
  {
    assert ([c] + t)[1..] == t;
  }

  /**
   * The melt is piece-major: split column 0 of every cell comes before split
   * column 1. So in cells (A, "yy,xx"), (B, "xx") the pair (A, xx) is melted
   * last and `xx` goes to A, although B is the later category column.
   */
  lemma MeltIsPieceMajor()
    ensures MeltPairs([("A", "yy,xx"), ("B", "xx")]) == [("A", "yy"), ("B", "xx"), ("A", "xx")]
    ensures TypeMap([("A", "yy"), ("B", "xx"), ("A", "xx")])["xx"] == "A"
  {
    MeltOfExampleCells();
    TypeMapOfExamplePairs();
  }

  /** The layers of the example cells, stacked. */
  lemma MeltOfExampleCells()
    ensures MeltPairs([("A", "yy,xx"), ("B", "xx")]) == [("A", "yy"), ("B", "xx"), ("A", "xx")]
  {
    var cells := [("A", "yy,xx"), ("B", "xx")];
    PiecesOfExampleCells();
    assert MaxPieces(cells) == 2;
    assert cells[..1] == [("A", "yy,xx")];
    assert Layer(cells, 0) == [("A", "yy"), ("B", "xx")];
    assert Layer(cells, 1) == [("A", "xx")];
  }

  /** No example pair repeats, so the last one decides `xx`. */
  lemma TypeMapOfExamplePairs()
    ensures TypeMap([("A", "yy"), ("B", "xx"), ("A", "xx")])["xx"] == "A"
  {
    var ps := [("A", "yy"), ("B", "xx"), ("A", "xx")];
    assert ps[..2] == [("A", "yy"), ("B", "xx")];
    assert ps[..2][..1] == [("A", "yy")];
    assert Dedup(ps[..2][..1]) == [("A", "yy")];
    assert Dedup(ps) == ps;
  }

  // ---------------------------------------------------------------------------
  // The combined `Ingredients` string
  // ---------------------------------------------------------------------------

  /** The cells of one row, each followed by a comma, concatenated in column order. */
  function JoinCells(cells: seq<string>): string
  {
    if cells == [] then []
    else JoinCells(cells[..|cells| - 1]) + cells[|cells| - 1] + ","
  }

  lemma {:induction false} JoinCellsAppend(a: seq<string>, b: seq<string>)
    ensures JoinCells(a + b) == JoinCells(a) + JoinCells(b)
  {
    if b == [] {
      assert a + b == a;
    } else {
      var n := |b| - 1;
      assert (a + b)[..|a + b| - 1] == a + b[..n];
      JoinCellsAppend(a, b[..n]);
    }
  }

  /** Every character of the joined string is a comma or comes from a cell. */
  lemma {:induction false} JoinCellsAlphabet(cells: seq<string>, c: char)
    requires c in JoinCells(cells)
    ensures c == ',' || exists k :: 0 <= k < |cells| && c in cells[k]
  {
    if cells != [] {
      var n := |cells| - 1;
      if c != ',' && c !in cells[n] {
        JoinCellsAlphabet(cells[..n], c);
        var k :| 0 <= k < n && c in cells[..n][k];
        assert cells[..n][k] == cells[k];
      }
    }
  }

  /** No cell holds a white-space character (cleaned cells never do). */
  predicate SpaceFree(cells: seq<string>) {
    forall k :: 0 <= k < |cells| ==> forall i :: 0 <= i < |cells[k]| ==> !IsSpace(cells[k][i])
  }

  /** Joining space-free cells and rewriting `,_` leaves a text without white space. */
  lemma JoinedSpaceFree(cells: seq<string>)
    ensures SpaceFree(cells) ==>
      forall i :: 0 <= i < |ReplaceAll(JoinCells(cells), ",_", ",")| ==> !IsSpace(ReplaceAll(JoinCells(cells), ",_", ",")[i])
  {
    var joined := ReplaceAll(JoinCells(cells), ",_", ",");
    if SpaceFree(cells) {
      forall i | 0 <= i < |joined| ensures !IsSpace(joined[i]) {
        ReplaceAllAlphabet(JoinCells(cells), ",_", ",", joined[i]);
        if joined[i] != ',' {
          JoinCellsAlphabet(cells, joined[i]);
        }
      }
    }
  }

  /**
   * The rewrites applied to the joined string, in their order: the first
   * turns every `,_` into `,`, the rest are `Tidy`. A row of space-free cells
   * keeps the tokens of the joined string once every `,_` became `,`.
   */
  function IngredientsText(cells: seq<string>): (r: string)
    ensures r == [] || (!IsComma(r[0]) && !IsComma(r[|r| - 1]))
    ensures SpaceFree(cells) ==> Tokens(r) == Tokens(ReplaceAll(JoinCells(cells), ",_", ","))
  {
    JoinedSpaceFree(cells);
    Tidy(ReplaceAll(JoinCells(cells), ",_", ","))
  }

  /**
   * The rewrites after the first: space runs and comma runs collapse to one
   * space, then the ends lose white space and commas. On a text without white
   * space none of them changes the tokens.
   */
  function Tidy(joined: string): (r: string)
    ensures r == [] || (!IsComma(r[0]) && !IsComma(r[|r| - 1]))
    ensures (forall i :: 0 <= i < |joined| ==> !IsSpace(joined[i])) ==> Tokens(r) == Tokens(joined)
  {
    var spaces := ReplaceRuns(joined, ' ', ' ');
    var commas := ReplaceRuns(spaces, ',', ' ');
    assert (forall i :: 0 <= i < |joined| ==> !IsSpace(joined[i])) ==>
        Tokens(Strip(Strip(commas, IsSpace), IsComma)) == Tokens(joined) by {
      if forall i :: 0 <= i < |joined| ==> !IsSpace(joined[i]) {
        RewritesKeepTokens(joined);
      }
    }
    Strip(Strip(commas, IsSpace), IsComma)
  }

  /**
   * A missing cell in any column but the first adds no token: it only puts a
   * second comma between the cells around it.
   */
  lemma EmptyCellAddsNoToken(cells: seq<string>, i: nat)
    requires SpaceFree(cells)
    requires 1 <= i <= |cells|
    ensures Tokens(IngredientsText(cells[..i] + [[]] + cells[i..])) == Tokens(IngredientsText(cells))
  {
    var more := cells[..i] + [[]] + cells[i..];
    SpaceFreeWithEmptyCell(cells, i);
    var pre := ReplaceAll(JoinCells(cells[..i - 1]) + cells[i - 1], ",_", ",");
    var q := ReplaceAll([','] + JoinCells(cells[i..]), ",_", ",");
    RewrittenAroundEmptyCell(cells, i);
    DoubleSeparator(pre, ',', ',', q[1..]);
    assert Tokens(IngredientsText(more)) == Tokens(ReplaceAll(JoinCells(more), ",_", ","));
    assert Tokens(IngredientsText(cells)) == Tokens(ReplaceAll(JoinCells(cells), ",_", ","));
  }

  lemma SpaceFreeWithEmptyCell(cells: seq<string>, i: nat)
    requires SpaceFree(cells)
    requires 1 <= i <= |cells|
    ensures SpaceFree(cells[..i] + [[]] + cells[i..])
  {
    var more := cells[..i] + [[]] + cells[i..];
    forall k | 0 <= k < |more| ensures forall j :: 0 <= j < |more[k]| ==> !IsSpace(more[k][j]) {
      if k < i { assert more[k] == cells[k]; }
      else if k > i { assert more[k] == cells[k - 1]; }
    }
  }

  /** Both joined texts, after the comma rewrite, split around the cut after cell `i - 1`. */
  lemma RewrittenAroundEmptyCell(cells: seq<string>, i: nat)
    requires 1 <= i <= |cells|
    ensures var pre := ReplaceAll(JoinCells(cells[..i - 1]) + cells[i - 1], ",_", ",");
            var q := ReplaceAll([','] + JoinCells(cells[i..]), ",_", ",");
            && q != []
            && ReplaceAll(JoinCells(cells), ",_", ",") == pre + [','] + q[1..]
            && ReplaceAll(JoinCells(cells[..i] + [[]] + cells[i..]), ",_", ",") == pre + [','] + ([','] + q[1..])
  {
    var a0 := JoinCells(cells[..i - 1]) + cells[i - 1];
    var b := JoinCells(cells[i..]);
    JoinCutAfter(cells, i);
    JoinWithEmptyCell(cells, i);
    RewriteAroundComma(a0, b);
    var pre := ReplaceAll(a0, ",_", ",");
    var q := ReplaceAll([','] + b, ",_", ",");
    assert ReplaceAll(JoinCells(cells), ",_", ",") == pre + q;
    assert q == [','] + q[1..];
    Assoc(pre, [','], q[1..]);
  }

  /** The joined string, cut after the comma that follows column `i - 1`. */
  lemma JoinCutAfter(cells: seq<string>, i: nat)
    requires 1 <= i <= |cells|
    ensures JoinCells(cells) == (JoinCells(cells[..i - 1]) + cells[i - 1]) + ([','] + JoinCells(cells[i..]))
  {
    JoinSplitAt(cells, i);
    JoinPrefixLast(cells, i);
    Regroup(JoinCells(cells[..i - 1]), cells[i - 1], [','], JoinCells(cells[i..]));
  }

  lemma JoinSplitAt(cells: seq<string>, i: nat)
    requires i <= |cells|
    ensures JoinCells(cells) == JoinCells(cells[..i]) + JoinCells(cells[i..])
  {
    JoinCellsAppend(cells[..i], cells[i..]);
    assert cells[..i] + cells[i..] == cells;
  }

  lemma JoinPrefixLast(cells: seq<string>, i: nat)
    requires 1 <= i <= |cells|
    ensures JoinCells(cells[..i]) == JoinCells(cells[..i - 1]) + cells[i - 1] + [',']
  {
    assert cells[..i][..i - 1] == cells[..i - 1];
  }

  lemma Regroup(a: string, c: string, d: string, b: string)
    ensures (a + c + d) + b == (a + c) + (d + b)
  {
  }

  /** The same with an extra empty cell after column `i - 1`. */
  lemma JoinWithEmptyCell(cells: seq<string>, i: nat)
    requires 1 <= i <= |cells|
    ensures JoinCells(cells[..i] + [[]] + cells[i..])
            == (JoinCells(cells[..i - 1]) + cells[i - 1] + [',']) + ([','] + JoinCells(cells[i..]))
  {
    var n := i - 1;
    assert cells[..i][..n] == cells[..n];
    JoinCellsAppend(cells[..i] + [[]], cells[i..]);
    JoinCellsAppend(cells[..i], [[]]);
    var blank: seq<string> := [[]];
    assert blank[..0] == [];
    assert JoinCells(blank) == [','];
  }

  /** Rewriting `,_` where one comma or two separate `a0` from `[','] + b`. */
  lemma RewriteAroundComma(a0: string, b: string)
    ensures ReplaceAll(a0 + ([','] + b), ",_", ",") == ReplaceAll(a0, ",_", ",") + ReplaceAll([','] + b, ",_", ",")
    ensures ReplaceAll((a0 + [',']) + ([','] + b), ",_", ",")
            == ReplaceAll(a0, ",_", ",") + [','] + ReplaceAll([','] + b, ",_", ",")
    ensures ReplaceAll([','] + b, ",_", ",") != [] && ReplaceAll([','] + b, ",_", ",")[0] == ','
  {
    ReplaceAllConcat(a0, [','] + b, ",_", ",");
    ReplaceAllConcat(a0 + [','], [','] + b, ",_", ",");
    ReplaceAllConcat(a0, [','], ",_", ",");
    assert ReplaceAll([','], ",_", ",") == [','];
  }

  /** A word: two or more clean characters, none of them a comma. */
  predicate IsCleanWord(w: string) {
    |w| >= 2 && forall i :: 0 <= i < |w| ==> IsCleanChar(w[i]) && w[i] != ','
  }

  /** Rewriting `,_` leaves a clean word followed by its comma as it is. */
  lemma WordRewriteUntouched(w: string)
    requires IsCleanWord(w)
    ensures ReplaceAll(w + [','], ",_", ",") == w + [',']
  {
    AbsentCharNoMatch(w, ",_", 0);
    ReplaceAllWithoutMatch(w, ",_", ",");
    ReplaceAllConcat(w, [','], ",_", ",");
    assert ReplaceAll([','], ",_", ",") == [','];
  }

  /**
   * A row whose only cell is a clean word has that word as its one token;
   * a leading underscore stays part of it.
   */
  lemma OneCellIsOneToken(w: string)
    requires IsCleanWord(w)
    ensures Tokens(IngredientsText([w])) == [w]
  {
    var one := [w];
    assert SpaceFree(one) by {
      assert forall i :: 0 <= i < |w| ==> !IsSpace(w[i]);
    }
    assert JoinCells(one) == w + [','] by {
      assert one[..0] == [];
    }
    WordRewriteUntouched(w);
    WordThenComma(w);
  }

  /** A cell in the first column keeps a leading underscore: `_ab` (what a cell ` ab` cleans to) is a token. */
  lemma FirstCellKeepsUnderscore()
    ensures Tokens(IngredientsText(["_ab"])) == ["_ab"]
  {
    OneCellIsOneToken("_ab");
  }

  /**
   * In the first column a missing cell can change the tokens: the joined
   * string then starts with a comma, and an underscore that starts the next
   * cell is removed with it.
   */
  lemma LeadingEmptyCellDropsFirstUnderscore(v: string)
    requires IsCleanWord(v)
    ensures Tokens(IngredientsText(["", "_" + v])) == [v]
  {
    var two := ["", "_" + v];
    assert SpaceFree(two) by {
      assert forall i :: 0 <= i < |two[1]| ==> !IsSpace(two[1][i]) by {
        assert forall i :: 0 <= i < |v| ==> two[1][i + 1] == v[i];
      }
    }
    assert JoinCells(two) == ",_" + (v + [',']) by {
      assert two[..1] == [""] && two[..1][..0] == [];
      assert JoinCells([""]) == [','];
    }
    assert ReplaceAll(",_" + (v + [',']), ",_", ",") == [','] + (v + [',']) by {
      ReplaceAllReplacesHead(",_", v + [','], ",");
      WordRewriteUntouched(v);
    }
    SeparatorHead(',', v + [',']);
    WordThenComma(v);
  }

  /** The instance `["", "_ab"]`: the token is `ab`, not `_ab`. */
  lemma LeadingEmptyCellDropsUnderscore()
    ensures Tokens(IngredientsText(["", "_ab"])) == ["ab"]
  {
    LeadingEmptyCellDropsFirstUnderscore("ab");
    assert "_" + "ab" == "_ab";
  }

  /** A word of two or more non-separator characters followed by a comma is one token. */
  lemma WordThenComma(w: string)
    requires IsCleanWord(w)
    ensures Tokens(w + [',']) == [w]
  {
    NoTokensInEmpty();
    SplitWithoutSeparator(w, TokenSeparators);
    assert LongPieces([w]) == [w] + LongPieces([w][1..]);
    assert [w][1..] == [];
    assert Tokens(w) == [w];
    TokensAtSeparator(w, ',', []);
    assert w + [','] + [] == w + [','];
  }

  function Commas(k: nat): (r: string)
    ensures |r| == k && forall i :: 0 <= i < k ==> r[i] == ','
  {
    if k == 0 then [] else Commas(k - 1) + ","
  }

  lemma {:induction false} JoinEmptyCells(cells: seq<string>)
    requires forall i :: 0 <= i < |cells| ==> cells[i] == []
    ensures JoinCells(cells) == Commas(|cells|)
  {
    if cells != [] {
      JoinEmptyCells(cells[..|cells| - 1]);
    }
  }

  lemma {:induction false} CommasHoldNoUnderscore(s: string)
    requires forall i :: 0 <= i < |s| ==> s[i] == ','
    ensures !Contains(s, ",_")
  {
    if s != [] {
      assert !(",_" <= s) by { if |s| >= 2 { assert s[1] == ','; } }
      CommasHoldNoUnderscore(s[1..]);
    }
  }

  /** A row whose ingredient cells are all empty (missing) has an empty `Ingredients` string. */
  lemma EmptyCellsGiveEmptyText(cells: seq<string>)
    requires forall i :: 0 <= i < |cells| ==> cells[i] == []
    ensures IngredientsText(cells) == []
  {
    var k := |cells|;
    var c := Commas(k);
    JoinEmptyCells(cells);
    CommasHoldNoUnderscore(c);
    ReplaceAllWithoutMatch(c, ",_", ",");
    ReplaceRunsWithoutMatch(c, ' ', ' ');
    if k >= 2 {
      assert RunLength(c, ',') == k;
      assert ReplaceRuns(c, ',', ' ') == " ";
    } else {
      ReplaceRunsWithoutMatch(c, ',', ' ');
    }
  }

  // ---------------------------------------------------------------------------
  // The count matrix (a stand-in for the count vectorizer)
  // ---------------------------------------------------------------------------

  /** The pieces of at least two characters. */
  function LongPieces(parts: seq<string>): seq<string>
  {
    if parts == [] then []
    else (if |parts[0]| >= 2 then [parts[0]] else []) + LongPieces(parts[1..])
  }

  lemma {:induction false} LongPiecesKept(parts: seq<string>, x: string)
    ensures x in LongPieces(parts) <==> x in parts && |x| >= 2
  {
    if parts != [] {
      LongPiecesKept(parts[1..], x);
      assert parts == [parts[0]] + parts[1..];
    }
  }

  /**
   * Tokens of an `Ingredients` string: the pieces between commas and spaces
   * that are at least two characters long. On strings of lower-case letters,
   * underscores, commas and spaces these are the matches of the vectorizer's
   * default token pattern.
   */
  function Tokens(doc: string): seq<string>
  {
    LongPieces(Split(doc, TokenSeparators))
  }

  const TokenSeparators: set<char> := {',', ' '}

  lemma {:induction false} LongPiecesAppend(a: seq<string>, b: seq<string>)
    ensures LongPieces(a + b) == LongPieces(a) + LongPieces(b)
  {
    if a == [] {
      assert a + b == b;
    } else {
      assert (a + b)[1..] == a[1..] + b;
      LongPiecesAppend(a[1..], b);
    }
  }

  lemma NoTokensInEmpty()
    ensures Tokens([]) == []
  {
    var parts := Split([], TokenSeparators);
    assert parts == [[]];
    assert |parts[0]| == 0 && parts[1..] == [];
    assert LongPieces(parts) == LongPieces(parts[1..]);
  }

  /** A separator ends the tokens before it and starts those after it. */
  lemma TokensAtSeparator(p: string, x: char, t: string)
    requires x in TokenSeparators
    ensures Tokens(p + [x] + t) == Tokens(p) + Tokens(t)
  {
    SplitAtSeparator(p, x, t, TokenSeparators);
    LongPiecesAppend(Split(p, TokenSeparators), Split(t, TokenSeparators));
  }

  lemma SeparatorHead(x: char, t: string)
    requires x in TokenSeparators
    ensures Tokens([x] + t) == Tokens(t)
  {
    TokensAtSeparator([], x, t);
    assert [] + [x] + t == [x] + t;
  }

  /** Leading separators contribute no token. */
  lemma {:induction false} SkipSeparators(p: string, t: string)
    requires forall i :: 0 <= i < |p| ==> p[i] in TokenSeparators
    ensures Tokens(p + t) == Tokens(t)
  {
    if p == [] {
      assert p + t == t;
    } else {
      assert p + t == [p[0]] + (p[1..] + t);
      SeparatorHead(p[0], p[1..] + t);
      SkipSeparators(p[1..], t);
    }
  }

  /** Trailing separators contribute no token. */
  lemma TrailingSeparators(m: string, q: string)
    requires forall i :: 0 <= i < |q| ==> q[i] in TokenSeparators
    ensures Tokens(m + q) == Tokens(m)
  {
    if q == [] {
      assert m + q == m;
    } else {
      assert m + q == m + [q[0]] + q[1..];
      TokensAtSeparator(m, q[0], q[1..]);
      SkipSeparators(q[1..], []);
      assert q[1..] + [] == q[1..];
      NoTokensInEmpty();
    }
  }

  /** Two separators in a row give the tokens of one. */
  lemma DoubleSeparator(p: string, x: char, y: char, q: string)
    requires x in TokenSeparators && y in TokenSeparators
    ensures Tokens(p + [x] + ([y] + q)) == Tokens(p + [y] + q)
  {
    TokensAtSeparator(p, x, [y] + q);
    SeparatorHead(y, q);
    TokensAtSeparator(p, y, q);
  }

  /** Replacing runs of a separator by one separator keeps the tokens (generalised over a prefix `w`). */
  lemma {:induction false} ReplaceRunsKeepTokens(w: string, t: string, c: char, rep: char)
    requires c in TokenSeparators && rep in TokenSeparators
    ensures Tokens(w + ReplaceRuns(t, c, rep)) == Tokens(w + t)
    decreases |t|
  {
    if t == [] {
    } else if t[0] != c {
      ReplaceRunsKeepTokens(w + [t[0]], t[1..], c, rep);
      PlainCharStep(w, t, c, rep);
    } else {
      ReplaceRunsKeepTokens([], t[RunLength(t, c)..], c, rep);
      RunKeepsTokens(w, t, c, rep);
    }
  }

  /** The step of `ReplaceRunsKeepTokens` for a string that starts with another character. */
  lemma PlainCharStep(w: string, t: string, c: char, rep: char)
    requires t != [] && t[0] != c
    requires Tokens((w + [t[0]]) + ReplaceRuns(t[1..], c, rep)) == Tokens((w + [t[0]]) + t[1..])
    ensures Tokens(w + ReplaceRuns(t, c, rep)) == Tokens(w + t)
  {
    PlainCharShift(w, t, c, rep);
  }

  lemma PlainCharShift(w: string, t: string, c: char, rep: char)
    requires t != [] && t[0] != c
    ensures w + ReplaceRuns(t, c, rep) == (w + [t[0]]) + ReplaceRuns(t[1..], c, rep)
    ensures (w + [t[0]]) + t[1..] == w + t
  {
    assert ReplaceRuns(t, c, rep) == [t[0]] + ReplaceRuns(t[1..], c, rep);
    assert t == [t[0]] + t[1..];
  }

  /** The step of `ReplaceRunsKeepTokens` for a string that starts with a run of `c`. */
  lemma RunKeepsTokens(w: string, t: string, c: char, rep: char)
    requires c in TokenSeparators && rep in TokenSeparators
    requires t != [] && t[0] == c
    requires Tokens([] + ReplaceRuns(t[RunLength(t, c)..], c, rep)) == Tokens([] + t[RunLength(t, c)..])
    ensures Tokens(w + ReplaceRuns(t, c, rep)) == Tokens(w + t)
  {
    var k := RunLength(t, c);
    assert [] + ReplaceRuns(t[k..], c, rep) == ReplaceRuns(t[k..], c, rep) && [] + t[k..] == t[k..];
    RunOutputTokens(w, t, c, rep);
    RunInputTokens(w, t, c);
  }

  lemma RunOutputTokens(w: string, t: string, c: char, rep: char)
    requires c in TokenSeparators && rep in TokenSeparators
    requires t != [] && t[0] == c
    ensures Tokens(w + ReplaceRuns(t, c, rep)) == Tokens(w) + Tokens(ReplaceRuns(t[RunLength(t, c)..], c, rep))
  {
    var k := RunLength(t, c);
    var x := if k >= 2 then rep else c;
    RunOutputShift(w, t, c, rep);
    TokensAtSeparator(w, x, ReplaceRuns(t[k..], c, rep));
  }

  lemma RunOutputShift(w: string, t: string, c: char, rep: char)
    requires t != [] && t[0] == c
    ensures w + ReplaceRuns(t, c, rep)
            == w + [if RunLength(t, c) >= 2 then rep else c] + ReplaceRuns(t[RunLength(t, c)..], c, rep)
  {
  }

  lemma RunInputTokens(w: string, t: string, c: char)
    requires c in TokenSeparators
    requires t != [] && t[0] == c
    ensures Tokens(w + t) == Tokens(w) + Tokens(t[RunLength(t, c)..])
  {
    var k := RunLength(t, c);
    RunInputShift(w, t, c);
    TokensAtSeparator(w, c, t[1..]);
    SkipSeparators(t[1..k], t[k..]);
  }

  lemma RunInputShift(w: string, t: string, c: char)
    requires t != [] && t[0] == c
    ensures w + t == w + [c] + t[1..]
    ensures t[1..] == t[1..RunLength(t, c)] + t[RunLength(t, c)..]
  {
    assert t == [c] + t[1..];
  }

  /** Stripping characters that are all separators keeps the tokens. */
  lemma StripKeepsTokens(s: string, cut: char -> bool)
    requires forall i :: 0 <= i < |s| && cut(s[i]) ==> s[i] in TokenSeparators
    ensures Tokens(Strip(s, cut)) == Tokens(s)
  {
    var i, j :| && 0 <= i <= j <= |s| && Strip(s, cut) == s[i..j]
                && (forall k :: 0 <= k < i ==> cut(s[k]))
                && (forall k :: j <= k < |s| ==> cut(s[k]));
    assert s == s[..i] + (s[i..j] + s[j..]);
    SkipSeparators(s[..i], s[i..j] + s[j..]);
    TrailingSeparators(s[i..j], s[j..]);
  }

  /** The rewrites after the first one keep the tokens of a string without white space. */
  lemma RewritesKeepTokens(joined: string)
    requires forall i :: 0 <= i < |joined| ==> !IsSpace(joined[i])
    ensures Tokens(Strip(Strip(ReplaceRuns(ReplaceRuns(joined, ' ', ' '), ',', ' '), IsSpace), IsComma)) == Tokens(joined)
  {
    var spaces := ReplaceRuns(joined, ' ', ' ');
    var commas := ReplaceRuns(spaces, ',', ' ');
    RunsKeepTokens(joined, ' ');
    RunsKeepTokens(spaces, ',');
    RewritesOnlySpace(joined);
    StripKeepsTokens(commas, IsSpace);
    StripKeepsTokens(Strip(commas, IsSpace), IsComma);
  }

  /** Collapsing the runs of one separator into a space keeps the tokens. */
  lemma RunsKeepTokens(s: string, c: char)
    requires c in TokenSeparators
    ensures Tokens(ReplaceRuns(s, c, ' ')) == Tokens(s)
  {
    ReplaceRunsKeepTokens([], s, c, ' ');
    assert [] + s == s && [] + ReplaceRuns(s, c, ' ') == ReplaceRuns(s, c, ' ');
  }

  /** After both collapses, the only white space left in a text without white space is the plain space. */
  lemma RewritesOnlySpace(joined: string)
    requires forall i :: 0 <= i < |joined| ==> !IsSpace(joined[i])
    ensures var commas := ReplaceRuns(ReplaceRuns(joined, ' ', ' '), ',', ' ');
      forall i :: 0 <= i < |commas| && IsSpace(commas[i]) ==> commas[i] in TokenSeparators
  {
    var spaces := ReplaceRuns(joined, ' ', ' ');
    var commas := ReplaceRuns(spaces, ',', ' ');
    forall i | 0 <= i < |commas| && IsSpace(commas[i]) ensures commas[i] in TokenSeparators {
      ReplaceRunsAlphabet(spaces, ',', ' ', commas[i]);
      if commas[i] != ' ' {
        ReplaceRunsAlphabet(joined, ' ', ' ', commas[i]);
      }
    }
  }

  function AddTokens(v: seq<string>, ts: seq<string>): (r: seq<string>)
    requires LexSorted(v)
    ensures LexSorted(r)
    ensures forall x :: x in r <==> x in v || x in ts
    decreases |ts|
  {
    if ts == [] then v else AddTokens(InsertSorted(v, ts[0]), ts[1..])
  }

  /** The vectorizer's vocabulary: every distinct token of every document, in sorted order. */
  function Vocabulary(docs: seq<string>): (r: seq<string>)
    ensures LexSorted(r)
  {
    if docs == [] then [] else AddTokens(Vocabulary(docs[..|docs| - 1]), Tokens(docs[|docs| - 1]))
  }

  /** Token `x` occurs in one of the documents. */
  predicate OccursIn(docs: seq<string>, x: string) {
    exists d :: 0 <= d < |docs| && x in Tokens(docs[d])
  }

  lemma OccursInSnoc(docs: seq<string>, x: string)
    requires docs != []
    ensures OccursIn(docs, x) <==> OccursIn(docs[..|docs| - 1], x) || x in Tokens(docs[|docs| - 1])
  {
    var n := |docs| - 1;
    var front := docs[..n];
    assert forall d :: 0 <= d < n ==> front[d] == docs[d];
  }

  /** The vocabulary holds exactly the tokens that occur in some document. */
  lemma {:induction false} VocabularyComplete(docs: seq<string>, x: string)
    ensures x in Vocabulary(docs) <==> OccursIn(docs, x)
  {
    if docs != [] {
      var n := |docs| - 1;
      VocabularyComplete(docs[..n], x);
      OccursInSnoc(docs, x);
    }
  }

  /** How often `t` occurs in `ts`, counted one position at a time. */
  function Occurrences(ts: seq<string>, t: string): (n: nat)
    ensures n > 0 <==> t in ts
  {
    if ts == [] then 0
    else
      assert t in ts <==> ts[0] == t || t in ts[1..];
      (if ts[0] == t then 1 else 0) + Occurrences(ts[1..], t)
  }

  lemma {:induction false} MultisetCountsOccurrences(ts: seq<string>, t: string)
    ensures multiset(ts)[t] == Occurrences(ts, t)
  {
    if ts != [] {
      assert ts == [ts[0]] + ts[1..];
      MultisetCountsOccurrences(ts[1..], t);
    }
  }

  /** One row per document and one column per vocabulary token: cell `(r, j)` counts `vocab[j]` among the tokens of document `r`. */
  function CountMatrix(docs: seq<string>, vocab: seq<string>): (m: seq<seq<nat>>)
    ensures |m| == |docs|
    ensures forall r :: 0 <= r < |docs| ==> |m[r]| == |vocab|
    ensures forall r, j :: 0 <= r < |docs| && 0 <= j < |vocab| ==> m[r][j] == Occurrences(Tokens(docs[r]), vocab[j])
  {
    assert forall r, j :: 0 <= r < |docs| && 0 <= j < |vocab| ==>
      multiset(Tokens(docs[r]))[vocab[j]] == Occurrences(Tokens(docs[r]), vocab[j]) by {
      forall r, j | 0 <= r < |docs| && 0 <= j < |vocab| {
        MultisetCountsOccurrences(Tokens(docs[r]), vocab[j]);
      }
    }
    seq(|docs|, r requires 0 <= r < |docs| =>
      seq(|vocab|, j requires 0 <= j < |vocab| => multiset(Tokens(docs[r]))[vocab[j]]))
  }

  // ---------------------------------------------------------------------------
  // parse_data
  // ---------------------------------------------------------------------------

  function Project(row: seq<string>, ps: seq<nat>): (r: seq<string>)
    requires forall k :: 0 <= k < |ps| ==> ps[k] < |row|
    ensures |r| == |ps| && forall k :: 0 <= k < |ps| ==> r[k] == row[ps[k]]
  {
    seq(|ps|, k requires 0 <= k < |ps| => row[ps[k]])
  }

  /** Setting the joined `Ingredients` column: overwrites a column of that name, or appends one. */
  function PlaceColumns(columns: seq<string>): seq<string>
  {
    if IngredientsColumn in columns then columns else columns + [IngredientsColumn]
  }

  function PlaceCell(columns: seq<string>, row: seq<string>, text: string): seq<string>
    requires |row| == |columns|
  {
    if IngredientsColumn in columns then row[IndexOf(columns, IngredientsColumn) := text] else row + [text]
  }

  /** The cleaned cell table of a raw table. */
  function CleanTable(raw: RawTable): (r: seq<seq<string>>)
    requires WellFormed(raw)
    ensures |r| == |raw.rows| && forall i :: 0 <= i < |r| ==> |r[i]| == |raw.header|
  {
    CleanedRows(FillMissing(raw.rows), IngredientPositions(raw.header))
  }

  /** The `Ingredients` string of every row. */
  function Documents(raw: RawTable): (r: seq<string>)
    requires WellFormed(raw)
    ensures |r| == |raw.rows|
  {
    var cleaned := CleanTable(raw);
    var ps := IngredientPositions(raw.header);
    seq(|cleaned|, i requires 0 <= i < |cleaned| => IngredientsText(Project(cleaned[i], ps)))
  }

  /** The (category, token) pairs of the melted frame. */
  function TypePairs(raw: RawTable): seq<(string, string)>
    requires WellFormed(raw)
  {
    var cleaned := CleanTable(raw);
    var ps := IngredientPositions(raw.header);
    MeltPairs(CategoryCells(cleaned, ps, Categories(raw.header)))
  }

  /**
   * What `parse_data` returns for a raw table, or the error it raises; each
   * error has its exact condition (`ParseSucceeds` says what a success holds).
   */
  function ParseSpec(raw: RawTable): (r: Result<Parsed, ParseError>)
    requires WellFormed(raw)
    ensures r == Failure(DuplicateColumn) <==> !Distinct(Renamed(raw.header))
    ensures r == Failure(NoIngredientColumns) <==>
      Distinct(Renamed(raw.header)) && forall j :: 0 <= j < |raw.header| ==> !IsIngredientColumn(raw.header[j])
    ensures r == Failure(IngredientsCategory) <==>
      Distinct(Renamed(raw.header)) && IngredientsColumn in Categories(raw.header)
    ensures r == Failure(EmptyVocabulary) <==>
      && Distinct(Renamed(raw.header)) && IngredientsColumn !in Categories(raw.header)
      && (exists j :: 0 <= j < |raw.header| && IsIngredientColumn(raw.header[j]))
      && Vocabulary(Documents(raw)) == []
  {
    var ps := IngredientPositions(raw.header);
    assert ps != [] ==> IsIngredientColumn(raw.header[ps[0]]);
    if !Distinct(Renamed(raw.header)) then Failure(DuplicateColumn)
    else if ps == [] then Failure(NoIngredientColumns)
    else if IngredientsColumn in Categories(raw.header) then Failure(IngredientsCategory)
    else
      var cleaned := CleanTable(raw);
      var docs := Documents(raw);
      var vocab := Vocabulary(docs);
      if vocab == [] then Failure(EmptyVocabulary)
      else
        var table := RecipeTable(PlaceColumns(KeptHeader(raw)), KeptRows(raw), vocab, CountMatrix(docs, vocab));
        Success(Parsed(table, TypeMap(TypePairs(raw)), OtherColumns(raw.header)))
  }

  /** A header shorter than the marker cannot hold it. */
  lemma {:induction false} ShortHeaderUnmarked(h: string)
    requires |h| < |Marker|
    ensures !IsIngredientColumn(h)
    decreases |h|
  {
    if h != [] { ShortHeaderUnmarked(h[1..]); }
  }

  /** The header of a lone `Ingredients` category: unique renamed columns, with that category among them. */
  lemma IngredientsCategoryHeader(h: seq<string>)
    requires h == [RecipeNameColumn, Marker + IngredientsColumn]
    ensures Distinct(Renamed(h)) && IngredientsColumn in Categories(h)
  {
    ShortHeaderUnmarked(RecipeNameColumn);
    CategoryOfMarkedHeader(IngredientsColumn);
    RenamedPair(h[0], h[1]);
    CategoryOfSecond(h);
  }

  /** Renaming a two-column header whose first column is unmarked and second is marked. */
  lemma RenamedPair(a: string, b: string)
    requires !IsIngredientColumn(a) && IsIngredientColumn(b)
    ensures Renamed([a, b]) == [a, CategoryName(b)]
  {
  }

  /** The category of the marked second column of a two-column header is a category. */
  lemma CategoryOfSecond(h: seq<string>)
    requires |h| == 2 && IsIngredientColumn(h[1])
    ensures CategoryName(h[1]) in Categories(h)
  {
    var ps := IngredientPositions(h);
    assert 1 in ps;
    var k :| 0 <= k < |ps| && ps[k] == 1;
    assert Categories(h)[k] == CategoryName(h[1]);
  }

  /** A recipe table whose one ingredient column is the category `Ingredients` fails. */
  lemma IngredientsCategoryExample(raw: RawTable)
    requires raw.header == [RecipeNameColumn, Marker + IngredientsColumn]
    requires WellFormed(raw)
    ensures ParseSpec(raw) == Failure(IngredientsCategory)
  {
    IngredientsCategoryHeader(raw.header);
  }

  /**
   * A successful parse keeps every row; its vocabulary is, sorted, the set of
   * tokens that occur in the rows' `Ingredients` strings; and each count is the
   * number of times the column's token occurs in the row's string.
   */
  lemma ParseSucceeds(raw: RawTable)
    requires WellFormed(raw) && ParseSpec(raw).Success?
    ensures var t := ParseSpec(raw).value.table;
      && |t.rows| == |raw.rows|
      && t.vocabulary != [] && LexSorted(t.vocabulary)
      && (forall x :: x in t.vocabulary <==> OccursIn(Documents(raw), x))
      && |t.counts| == |raw.rows|
      && (forall i, j :: 0 <= i < |raw.rows| && 0 <= j < |t.vocabulary| ==>
            t.counts[i][j] == Occurrences(Tokens(Documents(raw)[i]), t.vocabulary[j]))
  {
    var docs := Documents(raw);
    var vocab := Vocabulary(docs);
    forall x ensures x in vocab <==> OccursIn(docs, x) { VocabularyComplete(docs, x); }
    assert ParseSpec(raw).value.table.vocabulary == vocab;
    assert ParseSpec(raw).value.table.counts == CountMatrix(docs, vocab);
  }

  /**
   * A table keeps the unmarked columns of `raw` in header order with their
   * cells as read (a missing cell becoming empty), and holds each row's
   * `Ingredients` string in the `Ingredients` column: an unmarked column of
   * that name is overwritten, otherwise the column is appended.
   */
  predicate KeepsColumns(raw: RawTable, columns: seq<string>, rows: seq<seq<string>>)
    requires WellFormed(raw)
  {
    var kept := KeptHeader(raw);
    var kp := KeptPositions(raw.header);
    && (IngredientsColumn in kept ==> columns == kept)
    && (IngredientsColumn !in kept ==> columns == kept + [IngredientsColumn])
    && IngredientsColumn in columns
    && |rows| == |raw.rows|
    && (forall i :: 0 <= i < |rows| ==> |rows[i]| == |columns|)
    && (forall i, k :: 0 <= i < |rows| && 0 <= k < |kp| && raw.header[kp[k]] != IngredientsColumn ==>
          rows[i][k] == Fill(raw.rows[i][kp[k]]))
    && (forall i :: 0 <= i < |rows| ==> rows[i][IndexOf(columns, IngredientsColumn)] == Documents(raw)[i])
  }

  /** A successful parse keeps the metadata columns and places the joined strings. */
  lemma ParseKeepsColumns(raw: RawTable)
    requires WellFormed(raw) && ParseSpec(raw).Success?
    ensures KeepsColumns(raw, ParseSpec(raw).value.table.columns, ParseSpec(raw).value.table.rows)
  {
    SuccessTable(raw);
    KeptTable(raw);
  }

  /** The table of a successful parse is the kept header and rows. */
  lemma SuccessTable(raw: RawTable)
    requires WellFormed(raw) && ParseSpec(raw).Success?
    ensures ParseSpec(raw).value.table.columns == PlaceColumns(KeptHeader(raw))
    ensures ParseSpec(raw).value.table.rows == KeptRows(raw)
  {
  }

  /** The kept rows: unmarked cells as read, the `Ingredients` string in its column. */
  lemma KeptTable(raw: RawTable)
    requires WellFormed(raw)
    ensures KeepsColumns(raw, PlaceColumns(KeptHeader(raw)), KeptRows(raw))
  {
    var kept := KeptHeader(raw);
    var c := PlaceColumns(kept);
    var kp := KeptPositions(raw.header);
    var cleaned := CleanTable(raw);
    var docs := Documents(raw);
    var rows := KeptRows(raw);
    assert IngredientsColumn in c;
    forall i | 0 <= i < |rows|
      ensures |rows[i]| == |c|
      ensures rows[i][IndexOf(c, IngredientsColumn)] == docs[i]
      ensures forall k :: 0 <= k < |kp| && raw.header[kp[k]] != IngredientsColumn ==> rows[i][k] == Fill(raw.rows[i][kp[k]])
    {
      PlaceCellFacts(kept, Project(cleaned[i], kp), docs[i]);
      forall k | 0 <= k < |kp| && raw.header[kp[k]] != IngredientsColumn
        ensures rows[i][k] == Fill(raw.rows[i][kp[k]])
      {
        KeptCellUncleaned(raw, i, k);
      }
    }
  }

  /** Placing the `Ingredients` string keeps every other column's cell. */
  lemma PlaceCellFacts(columns: seq<string>, row: seq<string>, text: string)
    requires |row| == |columns|
    ensures var r := PlaceCell(columns, row, text);
      var c := PlaceColumns(columns);
      && IngredientsColumn in c && |r| == |c|
      && r[IndexOf(c, IngredientsColumn)] == text
      && forall k :: 0 <= k < |columns| && columns[k] != IngredientsColumn ==> r[k] == row[k]
  {
    if IngredientsColumn !in columns {
      var c := columns + [IngredientsColumn];
      assert c[|columns|] == IngredientsColumn;
      assert IndexOf(c, IngredientsColumn) == |columns|;
    }
  }

  /** An unmarked column is not cleaned: its cell is the raw cell, a missing one read as empty. */
  lemma KeptCellUncleaned(raw: RawTable, i: nat, k: nat)
    requires WellFormed(raw) && i < |raw.rows| && k < |KeptPositions(raw.header)|
    ensures CleanTable(raw)[i][KeptPositions(raw.header)[k]] == Fill(raw.rows[i][KeptPositions(raw.header)[k]])
  {
    assert KeptPositions(raw.header)[k] !in IngredientPositions(raw.header);
  }

  /** The header once the ingredient columns are dropped. */
  function KeptHeader(raw: RawTable): (r: seq<string>)
    ensures |r| == |KeptPositions(raw.header)|
  {
    Project(raw.header, KeptPositions(raw.header))
  }

  /** The kept cells of every row, with the row's `Ingredients` string in its place. */
  function KeptRows(raw: RawTable): seq<seq<string>>
    requires WellFormed(raw)
  {
    var cleaned := CleanTable(raw);
    var docs := Documents(raw);
    var kp := KeptPositions(raw.header);
    seq(|cleaned|, i requires 0 <= i < |cleaned| => PlaceCell(KeptHeader(raw), Project(cleaned[i], kp), docs[i]))
  }

  /** `parse_data`, with the column-cleaning loop. */
  method ParseData(raw: RawTable) returns (r: Result<Parsed, ParseError>)
    requires WellFormed(raw)
    ensures r == ParseSpec(raw)
  {
    var ps := IngredientPositions(raw.header);
    if !Distinct(Renamed(raw.header)) {
      return Failure(DuplicateColumn);
    }
    var filled := FillMissing(raw.rows);
    var cleaned := CleanIngredientColumns(filled, ps);
    var typeMap := TypeMap(MeltPairs(CategoryCells(cleaned, ps, Categories(raw.header))));
    if ps == [] {
      return Failure(NoIngredientColumns);
    }
    if IngredientsColumn in Categories(raw.header) {
      return Failure(IngredientsCategory);
    }
    var docs := seq(|cleaned|, i requires 0 <= i < |cleaned| => IngredientsText(Project(cleaned[i], ps)));
    var vocab := Vocabulary(docs);
    if vocab == [] {
      return Failure(EmptyVocabulary);
    }
    assert cleaned == CleanTable(raw);
    assert docs == Documents(raw);
    var table := RecipeTable(PlaceColumns(KeptHeader(raw)), KeptRows(raw), vocab, CountMatrix(docs, vocab));
    r := Success(Parsed(table, typeMap, OtherColumns(raw.header)));
  }
}

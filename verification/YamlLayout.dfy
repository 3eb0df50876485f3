/** How the encoder lays out a flag in block style with two spaces a level, and that rewriting it with the text of
    untouched nodes is always possible (internal/goff/yamldoc.go). */
module YamlLayout {
  import opened Options
  import opened Strings
  import opened YamlLines
  import opened YamlText

  /** What is encoded. A scalar may go on over further lines; an empty table or list takes one line with its key or
      dash. */
  datatype Tree = Scalar(text: string, more: seq<string>) | Table(fields: seq<Field>) | Items(items: seq<Item>)

  /** A key and its value. Above them stand comments and blank lines, and `note` is what else is on the key's line. */
  datatype Field = Field(above: seq<string>, key: string, note: string, value: Tree)

  datatype Item = Item(above: seq<string>, value: Tree)

  /** A key as it is printed: what would start a comment or an item is quoted. */
  predicate IsKey(key: string) {
    key != "" && !IsSpace(key[0]) && key[0] != '#' && !(|key| >= 2 && key[0] == '-' && key[1] == ' ')
  }

  predicate AreComments(lines: seq<string>) {
    forall i | 0 <= i < |lines| :: IsBlankOrComment(lines[i])
  }

  /** How many lines stand above the first line of the value itself. */
  function Above(t: Tree): nat {
    match t
    case Table(fields) => if fields == [] then 0 else |fields[0].above|
    case Items(items) => if items == [] then 0 else |items[0].above|
    case _ => 0
  }

  /** What stands above the start of an item stands above its dash. */
  predicate Printable(t: Tree)
    decreases t
  {
    match t
    case Scalar(_, _) => true
    case Table(fields) => fields != [] && forall i | 0 <= i < |fields| :: PrintableField(fields[i])
    case Items(items) => items != [] && forall i | 0 <= i < |items| :: PrintableItem(items[i])
  }

  predicate PrintableField(f: Field)
    decreases f
  {
    IsKey(f.key) && AreComments(f.above) && Printable(f.value)
  }

  predicate PrintableItem(item: Item)
    decreases item
  {
    AreComments(item.above) && Printable(item.value) && Above(item.value) == 0
  }

  function Spaces(n: nat): (r: string)
    ensures |r| == n && forall i | 0 <= i < n :: r[i] == ' '
  {
    seq(n, _ => ' ')
  }

  // ---------------------------------------------------------------- the lines

  /** The lines of a value whose first line starts with `lead`. */
  function Rows(t: Tree, lead: string): (rows: seq<string>)
    requires Printable(t)
    ensures |rows| >= 1
    decreases t, 0
  {
    match t
    case Scalar(text, more) => [lead + text] + more
    case Table(fields) => FieldsRows(fields, lead)
    case Items(items) => ItemsRows(items, lead)
  }

  predicate PrintableFields(fields: seq<Field>) {
    forall i | 0 <= i < |fields| :: PrintableField(fields[i])
  }

  predicate PrintableItems(items: seq<Item>) {
    forall i | 0 <= i < |items| :: PrintableItem(items[i])
  }

  /** The line of the key and what is below it. */
  function PairRows(f: Field, lead: string): (rows: seq<string>)
    requires PrintableField(f)
    ensures |rows| >= 1
    decreases f, 0
  {
    match f.value
    case Scalar(text, more) => [lead + f.key + ":" + (" " + text)] + more
    case value => [lead + f.key + ":" + f.note] + Rows(value, Spaces(|lead| + 2))
  }

  function FieldRows(f: Field, lead: string): (rows: seq<string>)
    requires PrintableField(f)
    ensures |rows| > |f.above|
    decreases f, 1
  {
    f.above + PairRows(f, lead)
  }

  function FieldsRows(fields: seq<Field>, lead: string): (rows: seq<string>)
    requires PrintableFields(fields)
    ensures fields != [] ==> |rows| > |fields[0].above|
    decreases fields, 0
  {
    if fields == [] then [] else FieldRows(fields[0], lead) + FieldsRows(fields[1..], Spaces(|lead|))
  }

  function ItemRows(item: Item, lead: string): (rows: seq<string>)
    requires PrintableItem(item)
    ensures |rows| > |item.above|
    decreases item, 0
  {
    item.above + Rows(item.value, lead + "- ")
  }

  function ItemsRows(items: seq<Item>, lead: string): (rows: seq<string>)
    requires PrintableItems(items)
    ensures items != [] ==> |rows| > |items[0].above|
    decreases items, 0
  {
    if items == [] then [] else ItemRows(items[0], lead) + ItemsRows(items[1..], Spaces(|lead|))
  }

  // ---------------------------------------------------------------- the places

  /** Where the nodes of the value stand, whose first line, with what is above it, is `line` and which starts at
      `column`, counted from 0. */
  function Lay(t: Tree, line: nat, column: nat): Placed
    requires Printable(t)
    decreases t, 0
  {
    match t
    case Scalar(_, _) => Placed(ScalarKind, false, line + 1, column + 1, [])
    case Table(fields) => Placed(MappingKind, false, line + Above(t) + 1, column + 1, LayFields(fields, line, column))
    case Items(items) => Placed(SequenceKind, false, line + Above(t) + 1, column + 1, LayItems(items, line, column))
  }

  /** The value of a field whose key is on line `line`. */
  function LayValue(f: Field, line: nat, column: nat): Placed
    requires PrintableField(f)
    decreases f, 0
  {
    match f.value
    case Scalar(_, _) => Placed(ScalarKind, false, line + 1, column + |f.key| + 3, [])
    case value => Lay(value, line + 1, column + 2)
  }

  function LayKey(line: nat, column: nat): Placed {
    Placed(ScalarKind, false, line + 1, column + 1, [])
  }

  function LayFields(fields: seq<Field>, line: nat, column: nat): seq<Placed>
    requires PrintableFields(fields)
    decreases fields, 0
  {
    if fields == [] then []
    else
      var at := line + |fields[0].above|;
      [LayKey(at, column), LayValue(fields[0], at, column)]
      + LayFields(fields[1..], line + |FieldRows(fields[0], Spaces(column))|, column)
  }

  function LayItems(items: seq<Item>, line: nat, column: nat): seq<Placed>
    requires PrintableItems(items)
    decreases items, 0
  {
    if items == [] then []
    else
      [Lay(items[0].value, line + |items[0].above|, column + 2)]
      + LayItems(items[1..], line + |ItemRows(items[0], Spaces(column))|, column)
  }

  // ---------------------------------------------------------------- heights and first lines

  /** How many lines a value takes does not depend on how the first one starts. */
  lemma {:induction false} SameHeight(t: Tree, a: string, b: string)
    requires Printable(t) && |a| == |b|
    ensures |Rows(t, a)| == |Rows(t, b)|
    decreases t, 0
  {
    match t {
      case Scalar(_, _) =>
      case Table(fields) => SameFieldHeight(fields[0], a, b);
      case Items(items) =>
        SameHeight(items[0].value, a + "- ", b + "- ");
        ItemsRowsSplit(items, a);
        ItemsRowsSplit(items, b);
    }
  }

  lemma {:induction false} SameFieldHeight(f: Field, a: string, b: string)
    requires PrintableField(f) && |a| == |b|
    ensures |PairRows(f, a)| == |PairRows(f, b)| && |FieldRows(f, a)| == |FieldRows(f, b)|
  {
  }

  lemma {:induction false} FirstRow(t: Tree, lead: string)
    requires Printable(t)
    ensures Above(t) < |Rows(t, lead)| && lead <= Rows(t, lead)[Above(t)]
    decreases t, 0
  {
    match t {
      case Scalar(_, _) =>
      case Table(fields) =>
        FirstPairRow(fields[0], lead);
        FieldsRowsSplit(fields, lead);
      case Items(items) =>
        FirstRow(items[0].value, lead + "- ");
        PrefixOf(lead, "- ", Rows(items[0].value, lead + "- ")[0]);
        ItemsRowsSplit(items, lead);
    }
  }

  lemma {:induction false} FirstPairRow(f: Field, lead: string)
    requires PrintableField(f)
    ensures lead + f.key + ":" <= PairRows(f, lead)[0] && lead <= PairRows(f, lead)[0]
  {
  }

  lemma {:induction false} PrefixOf(a: string, b: string, s: string)
    requires a + b <= s
    ensures a <= s
  {
  }

  // ---------------------------------------------------------------- what ends a node

  lemma {:induction false} IndentIs(n: nat, s: string)
    requires n < |s| && s[n] != ' ' && forall i | 0 <= i < n :: s[i] == ' '
    ensures Indent(s) == n
  {
    if n > 0 {
      IndentIs(n - 1, s[1..]);
    }
  }

  /** Trimming a line leaves what it says from its first to at least its `|said|`th character. */
  lemma {:induction false} TrimKeeps(n: nat, said: string, s: string)
    requires said != "" && !IsSpace(said[0]) && !IsSpace(said[|said| - 1]) && Spaces(n) + said <= s
    ensures said <= Trim(s)
  {
    hide Trim;
    var left, right := TrimSplits(s);
    var t := Trim(s);
    assert s[n] == said[0] && s[n + |said| - 1] == said[|said| - 1];
    var last := n + |said| - 1;
    assert forall i | 0 <= i < |left| :: s[i] == left[i];
    assert forall i | |left| + |t| <= i < |s| :: s[i] == right[i - |left| - |t|];
    assert forall i | 0 <= i < n :: s[i] == Spaces(n)[i];
    assert |left| <= n && last < |left| + |t|;
    assert t[0] == s[|left|];
    assert |left| == n;
    assert t == s[n..n + |t|];
    assert said == s[n..n + |said|];
    assert t[..|said|] == said;
  }

  /** What belongs to the node above: what is further in, and under a key also the items that stand right below it. */
  lemma {:induction false} InsideExactly(n: nat, said: string, col: nat, indentless: bool)
    requires said != "" && Trimmed(said)
    ensures Inside(Spaces(n) + said, col, indentless) <==>
            || n > col
            || (indentless && n == col && |said| >= 2 && said[0] == '-' && said[1] == ' ')
  {
    hide Trim;
    var line := Spaces(n) + said;
    assert line[n] == said[0];
    assert forall i | 0 <= i < n :: line[i] == Spaces(n)[i];
    IndentIs(n, line);
    assert line + "" == line;
    SpacesAreSpace(n);
    TrimPadded(Spaces(n), said, "");
    assert Trim(line) == said;
  }

  lemma {:induction false} SpacesAreSpace(n: nat)
    ensures AllSpace(Spaces(n)) && AllSpace("")
  {
  }

  lemma {:induction false} KeyLine(n: nat, key: string, s: string)
    requires IsKey(key) && Spaces(n) + key + ":" <= s
    ensures Indent(s) == n && !IsBlankOrComment(s) && !StartsItem(s)
  {
    hide Trim;
    var said := key + ":";
    assert Spaces(n) + said == Spaces(n) + key + ":";
    assert s[n] == said[0] == key[0];
    assert forall i | 0 <= i < n :: s[i] == Spaces(n)[i];
    IndentIs(n, s);
    TrimKeeps(n, said, s);
    var t := Trim(s);
    assert t[0] == said[0] && t[1] == said[1];
  }

  lemma {:induction false} ItemLine(n: nat, s: string)
    requires Spaces(n) + "- " <= s
    ensures Indent(s) == n && !IsBlankOrComment(s)
  {
    hide Trim;
    assert Spaces(n) + "-" <= s;
    assert s[n] == '-';
    assert forall i | 0 <= i < n :: s[i] == Spaces(n)[i];
    IndentIs(n, s);
    TrimKeeps(n, "-", s);
    var t := Trim(s);
    assert t[0] == "-"[0];
  }

  lemma {:induction false} LastDashOf(lead: string)
    ensures LastDash(lead + "- ") == Some(|lead|)
  {
    var s := lead + "- ";
    assert s[..|s| - 1] == lead + "-";
    assert s[|s| - 1] == ' ' && (lead + "-")[|lead|] == '-';
  }

  /** After the lines of a node at `column`: the end of the text, or a line further out. */
  predicate Ends(text: seq<string>, limit: nat, column: nat) {
    limit == |text| || (limit < |text| && !IsBlankOrComment(text[limit]) && Indent(text[limit]) < column)
  }

  predicate RowsAt(text: seq<string>, line: nat, rows: seq<string>) {
    line + |rows| <= |text| && text[line..line + |rows|] == rows
  }

  lemma {:induction false} RowsAtParts(text: seq<string>, line: nat, a: seq<string>, b: seq<string>)
    requires RowsAt(text, line, a + b)
    ensures RowsAt(text, line, a) && RowsAt(text, line + |a|, b)
  {
    var all := text[line..line + |a + b|];
    assert text[line..line + |a|] == all[..|a|];
    assert text[line + |a|..line + |a| + |b|] == all[|a|..];
  }

  lemma {:induction false} RowAt(text: seq<string>, line: nat, rows: seq<string>)
    requires RowsAt(text, line, rows) && rows != []
    ensures line < |text| && text[line] == rows[0]
  {
    assert text[line..line + |rows|][0] == text[line];
  }

  // ---------------------------------------------------------------- block style

  /** What is rendered is in block style, wherever it stands; up to `limit` there may be comments below it. */
  lemma {:induction false} LaidInStyle(text: seq<string>, t: Tree, line: nat, lead: string, from: nat, limit: nat)
    requires Printable(t) && RowsAt(text, line, Rows(t, lead)) && from <= line
    requires line + |Rows(t, lead)| <= limit && Ends(text, limit, |lead|)
    ensures BlockStyle(text, Lay(t, line, |lead|), from, limit)
    decreases t, 1
  {
    match t {
      case Scalar(_, _) =>
      case Table(fields) => FieldsInStyle(text, fields, line, lead, from, limit);
      case Items(items) => ItemsInStyleAt(text, items, line, lead, from, limit);
    }
  }

  /** The line of the next key, if there is one, ends what is before it. */
  lemma {:induction false} NextField(text: seq<string>, fields: seq<Field>, line: nat, column: nat, limit: nat)
    requires PrintableFields(fields) && RowsAt(text, line, FieldsRows(fields, Spaces(column)))
    requires line + |FieldsRows(fields, Spaces(column))| <= limit && Ends(text, limit, column)
    ensures var next := LineAfter(LayFields(fields, line, column), limit);
            && line <= next <= limit <= |text| && Ends(text, next, column + 2)
            && Stops(text, next, column, true) && Stops(text, next, column, false)
  {
    hide IsBlankOrComment, Indent, StartsItem, PairRows, LayValue;
    if fields != [] {
      var f, lead := fields[0], Spaces(column);
      var pair, rest := PairRows(f, lead), FieldsRows(fields[1..], lead);
      FieldsRowsSplit(fields, lead);
      RowsAtParts(text, line, f.above, pair + rest);
      RowsAtParts(text, line + |f.above|, pair, rest);
      RowAt(text, line + |f.above|, pair);
      FirstPairRow(f, lead);
      KeyLine(column, f.key, text[line + |f.above|]);
    }
  }

  lemma {:induction false} FieldsRowsSplit(fields: seq<Field>, lead: string)
    requires PrintableFields(fields) && fields != []
    ensures FieldsRows(fields, lead)
         == fields[0].above + (PairRows(fields[0], lead) + FieldsRows(fields[1..], Spaces(|lead|)))
  {
    hide PairRows;
  }

  lemma {:induction false} FieldsInStyle(text: seq<string>, fields: seq<Field>, line: nat, lead: string, from: nat,
                                         limit: nat)
    requires PrintableFields(fields) && RowsAt(text, line, FieldsRows(fields, lead)) && from <= line
    requires line + |FieldsRows(fields, lead)| <= limit && Ends(text, limit, |lead|)
    ensures PairsInStyle(text, LayFields(fields, line, |lead|), from, limit)
    decreases fields, 0
  {
    hide Stops, Ends, RowsAt, BlockStyle, PairRows, Lay;
    if fields != [] {
      var f, rest, column := fields[0], fields[1..], |lead|;
      var pair, more, at := PairRows(f, lead), FieldsRows(rest, Spaces(column)), line + |f.above|;
      var below := at + |pair|;
      FieldsRowsSplit(fields, lead);
      RowsAtParts(text, line, f.above, pair + more);
      RowsAtParts(text, at, pair, more);
      SameFieldHeight(f, lead, Spaces(column));
      NextField(text, rest, below, column, limit);
      var next := LineAfter(LayFields(rest, below, column), limit);
      ValueInStyle(text, f, at, lead, next);
      FieldsInStyle(text, rest, below, Spaces(column), below, limit);
      PairsFrom(text, rest, below, column, next, limit);
      PlacedFields(text, fields, line, lead, from, limit);
    }
  }

  /** The pairs lie below the line of the first key. */
  lemma {:induction false} PairsFrom(text: seq<string>, fields: seq<Field>, line: nat, column: nat, next: nat,
                                     limit: nat)
    requires PrintableFields(fields) && PairsInStyle(text, LayFields(fields, line, column), line, limit)
    requires next == LineAfter(LayFields(fields, line, column), limit)
    ensures PairsInStyle(text, LayFields(fields, line, column), next, limit)
  {
    hide Stops, BlockStyle, LayValue, FieldRows;
  }

  lemma {:induction false} ValueInStyle(text: seq<string>, f: Field, line: nat, lead: string, next: nat)
    requires PrintableField(f) && RowsAt(text, line, PairRows(f, lead))
    requires line + |PairRows(f, lead)| <= next && Ends(text, next, |lead| + 2)
    ensures var value := LayValue(f, line, |lead|);
            && value.line > 0
            && BlockStyle(text, value, if value.line > line + 1 then line + 1 else line, next)
    decreases f, 2
  {
    hide Ends, RowsAt, BlockStyle;
    if f.value.Scalar? {
      ScalarInStyle(text, LayValue(f, line, |lead|), line, next);
    } else {
      var first, inner := [lead + f.key + ":" + f.note], Spaces(|lead| + 2);
      RowsAtParts(text, line, first, Rows(f.value, inner));
      LaidInStyle(text, f.value, line + 1, inner, line + 1, next);
    }
  }

  lemma {:induction false} ScalarInStyle(text: seq<string>, n: Placed, from: nat, limit: nat)
    requires n.kind == ScalarKind
    ensures BlockStyle(text, n, from, limit)
  {
  }

  lemma {:induction false} PlacedFields(text: seq<string>, fields: seq<Field>, line: nat, lead: string, from: nat,
                                        limit: nat)
    requires PrintableFields(fields) && fields != [] && from <= line
    requires var at := line + |fields[0].above|;
             var rest := LayFields(fields[1..], at + |PairRows(fields[0], lead)|, |lead|);
             var next := LineAfter(rest, limit);
             var value := LayValue(fields[0], at, |lead|);
             && at < next <= limit <= |text|
             && Stops(text, next, |lead|, value.kind == SequenceKind)
             && BlockStyle(text, value, if value.line > at + 1 then at + 1 else at, next)
             && PairsInStyle(text, rest, next, limit)
    ensures PairsInStyle(text, LayFields(fields, line, |lead|), from, limit)
  {
    hide Stops, BlockStyle, PairRows, Lay, LineAfter, LayValue;
    SameFieldHeight(fields[0], lead, Spaces(|lead|));
    var at := line + |fields[0].above|;
    var content := LayFields(fields, line, |lead|);
    var rest := LayFields(fields[1..], at + |PairRows(fields[0], lead)|, |lead|);
    assert content == [LayKey(at, |lead|), LayValue(fields[0], at, |lead|)] + rest;
    assert content[2..] == rest;
  }

  /** The line of the next dash, if there is one, ends what is before it. */
  lemma {:induction false} NextItem(text: seq<string>, items: seq<Item>, line: nat, column: nat, limit: nat)
    requires PrintableItems(items) && RowsAt(text, line, ItemsRows(items, Spaces(column)))
    requires line + |ItemsRows(items, Spaces(column))| <= limit && Ends(text, limit, column)
    ensures var next := LineAfter(LayItems(items, line, column), limit);
            && line <= next <= limit <= |text| && Ends(text, next, column + 2) && Stops(text, next, column, false)
  {
    hide IsBlankOrComment, Indent, StartsItem, Rows;
    if items != [] {
      var item, lead := items[0], Spaces(column);
      var own, rest := Rows(item.value, lead + "- "), ItemsRows(items[1..], lead);
      ItemsRowsSplit(items, lead);
      RowsAtParts(text, line, item.above, own + rest);
      RowsAtParts(text, line + |item.above|, own, rest);
      RowAt(text, line + |item.above|, own);
      FirstRow(item.value, lead + "- ");
      ItemLine(column, text[line + |item.above|]);
    }
  }

  lemma {:induction false} ItemsRowsSplit(items: seq<Item>, lead: string)
    requires PrintableItems(items) && items != []
    ensures ItemsRows(items, lead)
         == items[0].above + (Rows(items[0].value, lead + "- ") + ItemsRows(items[1..], Spaces(|lead|)))
  {
    hide Rows;
  }

  lemma {:induction false} DashOfItem(text: seq<string>, t: Tree, line: nat, lead: string)
    requires Printable(t) && Above(t) == 0 && RowsAt(text, line, Rows(t, lead + "- "))
    ensures ItemDash(text, Lay(t, line, |lead| + 2)) == Some(|lead|)
  {
    hide Rows, LastDash;
    RowAt(text, line, Rows(t, lead + "- "));
    FirstRow(t, lead + "- ");
    var item := Lay(t, line, |lead| + 2);
    assert item.line == line + 1 && item.column == |lead| + 3;
    assert text[line][..|lead| + 2] == lead + "- ";
    LastDashOf(lead);
  }

  lemma {:induction false} ItemsInStyleAt(text: seq<string>, items: seq<Item>, line: nat, lead: string, from: nat,
                                          limit: nat)
    requires PrintableItems(items) && RowsAt(text, line, ItemsRows(items, lead)) && from <= line
    requires line + |ItemsRows(items, lead)| <= limit && Ends(text, limit, |lead|)
    ensures ItemsInStyle(text, LayItems(items, line, |lead|), from, limit)
    decreases items, 0
  {
    hide Stops, Ends, RowsAt, BlockStyle, Rows, Lay, ItemDash;
    if items != [] {
      var item, rest, column := items[0], items[1..], |lead|;
      var own, more, at := Rows(item.value, lead + "- "), ItemsRows(rest, Spaces(column)), line + |item.above|;
      var below := at + |own|;
      ItemsRowsSplit(items, lead);
      RowsAtParts(text, line, item.above, own + more);
      RowsAtParts(text, at, own, more);
      SameHeight(item.value, lead + "- ", Spaces(column) + "- ");
      NextItem(text, rest, below, column, limit);
      var next := LineAfter(LayItems(rest, below, column), limit);
      LaidInStyle(text, item.value, at, lead + "- ", at, next);
      DashOfItem(text, item.value, at, lead);
      ItemsInStyleAt(text, rest, below, Spaces(column), below, limit);
      ItemsFrom(text, rest, below, column, next, limit);
      PlacedItems(text, items, line, lead, from, limit);
    }
  }

  /** The items lie below the line of the first dash. */
  lemma {:induction false} ItemsFrom(text: seq<string>, items: seq<Item>, line: nat, column: nat, next: nat, limit: nat)
    requires PrintableItems(items) && ItemsInStyle(text, LayItems(items, line, column), line, limit)
    requires next == LineAfter(LayItems(items, line, column), limit)
    ensures ItemsInStyle(text, LayItems(items, line, column), next, limit)
  {
    hide Stops, BlockStyle, ItemRows, ItemDash;
  }

  lemma {:induction false} PlacedItems(text: seq<string>, items: seq<Item>, line: nat, lead: string, from: nat,
                                       limit: nat)
    requires PrintableItems(items) && items != [] && from <= line
    requires var at := line + |items[0].above|;
             var rest := LayItems(items[1..], at + |Rows(items[0].value, lead + "- ")|, |lead|);
             var next := LineAfter(rest, limit);
             var item := Lay(items[0].value, at, |lead| + 2);
             && at < next <= limit <= |text|
             && ItemDash(text, item) == Some(|lead|) && Stops(text, next, |lead|, false)
             && BlockStyle(text, item, at, next)
             && ItemsInStyle(text, rest, next, limit)
    ensures ItemsInStyle(text, LayItems(items, line, |lead|), from, limit)
  {
    hide Stops, BlockStyle, Rows, LineAfter, ItemDash;
    SameHeight(items[0].value, lead + "- ", Spaces(|lead|) + "- ");
    var at := line + |items[0].above|;
    var item := Lay(items[0].value, at, |lead| + 2);
    var content := LayItems(items, line, |lead|);
    var rest := LayItems(items[1..], at + |Rows(items[0].value, lead + "- ")|, |lead|);
    assert content == [item] + rest && content[1..] == rest;
    assert item.line == at + 1;
  }

  // ---------------------------------------------------------------- a whole flag

  /** The lines `renderFlag` gives, for a flag that is a table. */
  function RenderedFlag(key: string, flag: Tree): seq<string>
    requires IsKey(key) && Printable(flag) && flag.Table?
  {
    FieldRows(Field([], key, "", flag), "")
  }

  function FlagNode(flag: Tree): Placed
    requires Printable(flag)
  {
    Lay(flag, 1, 2)
  }

  /** The swaps collected for a rendered flag never overlap and come from lines of the file: they can be made. */
  lemma {:induction false} SwapsCanBeMade(file: seq<string>, now: Placed, key: string, flag: Tree)
    requires IsKey(key) && Printable(flag) && flag.Table? && OnFile(file, now)
    ensures var text := RenderedFlag(key, flag);
            var swaps := Collect(file, text, now, FlagNode(flag));
            BlockStyle(text, FlagNode(flag), 1, |text|) && InFile(file, swaps) && Apart(swaps, 0, |text|)
  {
    hide BlockStyle, Rows, Lay, Collect, Apart, InFile, OnFile;
    var text, first, inner := RenderedFlag(key, flag), ["" + key + ":" + ""], Spaces(2);
    assert text == PairRows(Field([], key, "", flag), "");
    assert Spaces(|""| + 2) == inner;
    assert text == first + Rows(flag, inner);
    assert RowsAt(text, 0, first + Rows(flag, inner));
    RowsAtParts(text, 0, first, Rows(flag, inner));
    LaidInStyle(text, flag, 1, inner, 1, |text|);
    SwapsInFile(file, text, now, FlagNode(flag));
    SwapsApart(file, text, now, FlagNode(flag), 1, |text|);
    ApartWiden(Collect(file, text, now, FlagNode(flag)), 1, |text|, 0);
  }

  /** `keepUntouchedText` of a rendered flag: what is written reads back as the rendered flag does, whatever nodes of
      the flag as it is now were never touched. */
  method KeepUntouched<Data(==)>(file: seq<string>, now: Placed, key: string, flag: Tree,
                                 read: seq<string> -> Option<Data>)
    returns (out: seq<string>)
    requires IsKey(key) && Printable(flag) && flag.Table? && OnFile(file, now)
    ensures var text := RenderedFlag(key, flag);
            var swaps := Collect(file, text, now, FlagNode(flag));
            && InFile(file, swaps) && Apart(swaps, 0, |text|)
            && read(out) == read(text)
            && var kept := AtOnce(file, text, swaps, 0);
               out == if read(text).Some? && swaps != [] && read(kept) == read(text) then kept else text
  {
    hide Collect, Apart, InFile, OnFile, RenderedFlag, FlagNode, AtOnce;
    SwapsCanBeMade(file, now, key, flag);
    var text := RenderedFlag(key, flag);
    out := KeepUntouchedText(file, text, Collect(file, text, now, FlagNode(flag)), read);
  }
}

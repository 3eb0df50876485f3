/** What the editor's text means where it is not the server's (web/src/lib/query.ts, internal/goff/condition.go). */
module EditorMeaning {
  import opened Options
  import opened Strings
  import opened Scanner
  import opened Conditions
  import opened Literals
  import opened Queries
  import opened Meaning
  import opened EditorPrinter

  function ListOperator(op: Operator): Operator {
    if op == Eq then In else NotIn
  }

  /** The editor prints an `eq` row as the server prints `in` with the same value, `ne` as `notin`; and a row with a
      blank value not at all, although the server prints it. */
  lemma {:induction false} EqualsRowIsListRow(h: Host, attr: string, op: Operator, value: string)
    requires attr != "" && Trimmed(attr) && PlainSpaces(attr) && PlainSpaces(value) && (op == Eq || op == Ne)
    ensures Trim(value) != "" ==> RowText(h, attr, op, value) == LeafText(h, attr, ListOperator(op), value)
    ensures Trim(value) == "" ==> RowText(h, attr, op, value) == "" != LeafText(h, attr, op, value)
  {
    hide Trim, EditorTrim, LookupOperator, FormatValue, EditorItems, Scalar, EditorList;
    if Trim(value) != "" {
      ListRow(h, attr, ListOperator(op), value);
    } else {
      PlainAttr(attr);
      TrimAgrees(value);
      LookupKey(op);
    }
  }

  lemma {:induction false} OneNormItem(value: string, i: nat)
    requires i < |SplitList(value)|
    ensures !Contains(Norm(SplitList(value)[i]), ',')
  {
    hide Trim, SplitList, Norm;
    SplitListItems(value);
    NormItem(SplitList(value)[i]);
  }

  /** Read as a list, an `eq` value means what it meant exactly if it has no comma. */
  lemma {:induction false} CommaChangesMeaning(attr: string, value: string)
    requires Trim(value) != ""
    ensures (forall env: Assignment :: TestHolds(env, attr, In, value) == TestHolds(env, attr, Eq, value)) <==>
            !Contains(value, ',')
    ensures (forall env: Assignment :: TestHolds(env, attr, NotIn, value) == TestHolds(env, attr, Ne, value)) <==>
            !Contains(value, ',')
  {
    hide Trim, SplitList, Norm;
    var items := SplitList(value);
    if Contains(value, ',') {
      CommaStays(value);
      var env: Assignment := (_, _, v) => v == Norm(value);
      forall i | 0 <= i < |items|
        ensures !env(attr, Eq, Norm(items[i]))
      {
        OneNormItem(value, i);
      }
      assert !TestHolds(env, attr, In, value) && TestHolds(env, attr, Eq, value);
      assert TestHolds(env, attr, NotIn, value) && !TestHolds(env, attr, Ne, value);
    } else {
      SingleItem(value);
      NormOfTrim(value);
      forall env: Assignment
        ensures TestHolds(env, attr, In, value) == TestHolds(env, attr, Eq, value)
        ensures TestHolds(env, attr, NotIn, value) == TestHolds(env, attr, Ne, value)
      {
        assert items == [Trim(value)];
        assert env(attr, Eq, Norm(items[0])) == env(attr, Eq, Norm(value));
      }
    }
  }

  lemma {:induction false} NormOfTrim(value: string)
    ensures Norm(Trim(value)) == Norm(value)
  {
    hide TrimLeft, TrimRight;
  }

  /** Such a row: `a eq "x,y"`. The editor writes `a in ["x", "y"]`, and a user with `x,y` matches the first and not the
      second. */
  lemma {:induction false} CommaRow(h: Host) returns (env: Assignment)
    ensures RowText(h, "a", Eq, "x,y") == LeafText(h, "a", In, "x,y") != LeafText(h, "a", Eq, "x,y")
    ensures TestHolds(env, "a", Eq, "x,y") && !TestHolds(env, "a", In, "x,y")
  {
    hide SplitList, RowText, LeafText, IsBare;
    var value := "x,y";
    PlainLetters();
    assert value[1] == ',';
    assert Contains(value, ',');
    EqualsRowIsListRow(h, "a", Eq, value);
    EqualsRow(h, "a", Eq, value);
    CommaStays(value);
    env := (_, _, v) => v == Norm(value);
    forall i | 0 <= i < |SplitList(value)|
      ensures !env("a", Eq, Norm(SplitList(value)[i]))
    {
      OneNormItem(value, i);
    }
  }

  lemma {:induction false} PlainLetters()
    ensures Trimmed("a") && PlainSpaces("a") && PlainSpaces("x,y") && Trim("x,y") != "" && IsBare("a")
  {
    assert Trimmed("x,y");
  }

  /** And a row with a blank value: the server writes it, the editor writes nothing. */
  lemma {:induction false} BlankRow(h: Host)
    ensures QueryFromCondition(h, Leaf("a", "eq", "")) == "" != CompileCondition(h, Leaf("a", "eq", ""))
  {
    PlainLetters();
    assert Trim("") == "" && PlainSpaces("");
    EqualsRowIsListRow(h, "a", Eq, "");
    BlankQuery(h);
  }

  lemma {:induction false} BlankQuery(h: Host)
    ensures QueryFromCondition(h, Leaf("a", "eq", "")) == RowText(h, "a", Eq, "")
    ensures CompileCondition(h, Leaf("a", "eq", "")) == LeafText(h, "a", Eq, "")
  {
    hide RuleToQuery, CompileLeaf;
    var c := Leaf("a", "eq", "");
    var row := ChildToRule(c);
    assert row == Row("a", "in", "");
    var text := RuleToQuery(h, "a", "in", "");
    assert [row][1..] == [];
    assert RenderAll(h, []) == [];
    assert RenderAll(h, [row]) == if text == "" then [] else [text];
  }
}

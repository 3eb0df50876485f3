/** The targeting-query parser (internal/goff/condition.go). */
module Parser {
  import opened Options
  import opened Strings
  import opened Scanner
  import opened Conditions

  // ---------------------------------------------------------------- splitTopLevel

  predicate IsJoinWord(w: string) {
    ToLower(w) == "and" || ToLower(w) == "or"
  }

  /** Text cut at the joining words outside parentheses and quotes: |raw| == |words| + 1. */
  datatype Pieces = Pieces(raw: seq<string>, words: seq<string>)

  function Glue(head: string, p: Option<Pieces>): Option<Pieces> {
    match p
    case None => None
    case Some(Pieces(raw, words)) =>
      if raw == [] then None else Some(Pieces([head + raw[0]] + raw[1..], words))
  }

  /** The pieces of `s`, read after a word character or not, in string mode `m` and at `depth`. */
  function PiecesFrom(h: Host, afterWord: bool, m: Mode, depth: nat, s: string): (p: Option<Pieces>)
    ensures p.Some? ==> |p.value.raw| == |p.value.words| + 1
    decreases |s|
  {
    if s == "" then
      if depth == 0 then Some(Pieces([""], [])) else None
    else
      var c := s[0];
      if m.Quoted? || IsQuote(c) then
        Glue([c], PiecesFrom(h, IsWordRune(h, c), NextMode(m, c), depth, s[1..]))
      else if c == '(' then
        Glue([c], PiecesFrom(h, false, Plain, depth + 1, s[1..]))
      else if c == ')' then
        if depth == 0 then None else Glue([c], PiecesFrom(h, false, Plain, depth - 1, s[1..]))
      else if depth == 0 && IsLetter(h, c) && !afterWord then
        var w := Word(h, s);
        var rest := PiecesFrom(h, true, Plain, 0, s[|w|..]);
        if !IsJoinWord(w) then Glue(w, rest)
        else if rest == None then None
        else Some(Pieces([""] + rest.value.raw, [w] + rest.value.words))
      else
        Glue([c], PiecesFrom(h, IsWordRune(h, c), Plain, depth, s[1..]))
  }

  function TrimAll(ss: seq<string>): (r: seq<string>)
    ensures |r| == |ss|
    ensures forall i | 0 <= i < |ss| :: r[i] == Trim(ss[i])
  {
    if ss == [] then [] else [Trim(ss[0])] + TrimAll(ss[1..])
  }

  function LowerAll(ss: seq<string>): (r: seq<string>)
    ensures |r| == |ss|
    ensures forall i | 0 <= i < |ss| :: r[i] == ToLower(ss[i])
  {
    if ss == [] then [] else [ToLower(ss[0])] + LowerAll(ss[1..])
  }

  datatype TopLevel = TopLevel(groups: seq<string>, joins: seq<string>)

  function SplitTopLevel(h: Host, s: string): Option<TopLevel> {
    match PiecesFrom(h, false, Plain, 0, s)
    case None => None
    case Some(Pieces(raw, words)) =>
      var groups := TrimAll(raw);
      if "" in groups then None else Some(TopLevel(groups, LowerAll(words)))
  }

  // ---------------------------------------------------------------- the parser

  /** A condition, `false`, or a parse that calls itself on its own input for ever. */
  datatype Parsed = Read(c: Condition) | Unreadable | Stuck

  datatype ParsedAll = ReadAll(cs: seq<Condition>) | Failed(why: Parsed)

  /** `stripOuterParens`. */
  function StripOuter(s: string): (r: string)
    ensures |r| <= |s|
    decreases |s|
  {
    if |s| >= 2 && s[0] == '(' && s[|s| - 1] == ')' && Balanced(s[1..|s| - 1])
    then StripOuter(Trim(s[1..|s| - 1]))
    else s
  }

  predicate HasParens(s: string) {
    Contains(s, '(') || Contains(s, ')')
  }

  predicate StartsWithNot(s: string) {
    |s| >= 4 && ToLower(s[..3]) == "not" && (s[3] == ' ' || s[3] == '(')
  }

  function ReadTokens(tokens: seq<string>): Parsed {
    if |tokens| < 2 || |tokens| > 3 then Unreadable else
    match LookupOperator(tokens[1])
    case None => Unreadable
    case Some(op) =>
      if Arity(op) == 0 then
        if |tokens| != 2 then Unreadable else Read(Leaf(tokens[0], Key(op), ""))
      else if |tokens| != 3 then Unreadable
      else Read(Leaf(tokens[0], Key(op), if Arity(op) == 2 then UnformatList(tokens[2]) else Unquote(tokens[2])))
  }

  predicate IsInList(tokens: seq<string>) {
    |tokens| == 3 && ToLower(tokens[1]) == "in"
  }

  /** What `not` makes of a condition; a group that is already negated is put in a plain `and`. */
  function Negate(c: Condition): Condition {
    if IsGroup(c) then
      if c.negated then Group("and", [c]) else c.(negated := true)
    else NotGroup("and", [c])
  }

  function ParseExpr(h: Host, s: string): Parsed
    decreases |s|, 1
  {
    var t := StripOuter(Trim(s));
    var negation := ParseNegated(h, t);
    if negation != Unreadable then negation else
    match SplitTopLevel(h, t)
    case None => Unreadable
    case Some(TopLevel(groups, joins)) =>
      SplitShorter(h, t);
      if |groups| == 1 then ParseLeaf(h, groups[0], |t|)
      else if exists i | 0 <= i < |joins| :: joins[i] != joins[0] then Unreadable
      else
        match ParseAll(h, groups, |t|)
        case Failed(why) => why
        case ReadAll(cs) => Read(Group(joins[0], cs))
  }

  function ParseAll(h: Host, groups: seq<string>, bound: nat): ParsedAll
    requires forall i | 0 <= i < |groups| :: |groups[i]| < bound
    decreases bound, 0, |groups|
  {
    if groups == [] then ReadAll([]) else
    match ParseExpr(h, groups[0])
    case Unreadable => Failed(Unreadable)
    case Stuck => Failed(Stuck)
    case Read(c) =>
      match ParseAll(h, groups[1..], bound)
      case Failed(why) => Failed(why)
      case ReadAll(cs) => ReadAll([c] + cs)
  }

  /** `bound` is the length of the text that the calling `parseExpr` has in hand. A leaf with a parenthesis in it
      is handed back to `parseExpr`; when it is no shorter than that text, nothing ever ends the recursion. */
  function ParseLeaf(h: Host, group: string, bound: nat): Parsed
    decreases bound, 0, 0
  {
    var s := StripOuter(Trim(group));
    if HasParens(s) then
      if |s| < bound then ParseExpr(h, s) else Stuck
    else ReadTokens(Tokens(s))
  }

  function ParseNegated(h: Host, s: string): Parsed
    decreases |s|, 0, 0
  {
    if !StartsWithNot(s) then Unreadable else
    var inner := StripOuter(Trim(s[3..]));
    if inner == "" then Unreadable else
    var tokens := Tokens(inner);
    if IsInList(tokens) then Read(Leaf(tokens[0], "notin", UnformatList(tokens[2]))) else
    match ParseExpr(h, inner)
    case Unreadable => Unreadable
    case Stuck => Stuck
    case Read(c) => Read(Negate(c))
  }

  /** `ParsedQuery`; `Diverges` where the server never answers. */
  datatype ParsedQuery = ParsedQuery(condition: Condition, simple: bool) | Diverges

  function ParseQuery(h: Host, q: string): ParsedQuery {
    var t := Trim(q);
    if t == "" then ParsedQuery(Nil, true) else
    match ParseExpr(h, t)
    case Read(c) => ParsedQuery(c, true)
    case Unreadable => ParsedQuery(Nil, false)
    case Stuck => Diverges
  }

  // ---------------------------------------------------------------- lengths

  function TotalLength(ss: seq<string>): nat {
    if ss == [] then 0 else |ss[0]| + TotalLength(ss[1..])
  }

  lemma {:induction false} TotalLengthAt(ss: seq<string>, i: nat)
    requires i < |ss|
    ensures |ss[i]| <= TotalLength(ss)
  {
    if i > 0 {
      TotalLengthAt(ss[1..], i - 1);
    }
  }

  predicate AtWord(h: Host, afterWord: bool, m: Mode, depth: nat, c: char) {
    m == Plain && depth == 0 && IsLetter(h, c) && !afterWord
  }

  /** Away from word starts, cutting follows the nesting scan character by character. */
  lemma {:induction false} PiecesStep(h: Host, afterWord: bool, m: Mode, depth: nat, s: string)
    requires s != "" && !AtWord(h, afterWord, m, depth, s[0])
    ensures PiecesFrom(h, afterWord, m, depth, s) ==
            match Nest(Nested(m, depth), s[0])
            case Unbalanced => None
            case Nested(m', depth') => Glue([s[0]], PiecesFrom(h, IsWordRune(h, s[0]), m', depth', s[1..]))
  {
    hide Word, ToLower;
  }

  lemma {:induction false} PiecesLengthGlue(head: string, p: Option<Pieces>)
    ensures var g := Glue(head, p);
            g.Some? ==> TotalLength(g.value.raw) == |head| + TotalLength(p.value.raw)
                        && g.value.words == p.value.words
  {
  }

  lemma {:induction false} NoLength()
    ensures TotalLength([""]) == 0
  {
    assert [""][1..] == [];
  }

  lemma {:induction false} LengthAfterCut(raw: seq<string>)
    ensures TotalLength([""] + raw) == TotalLength(raw)
  {
    assert ([""] + raw)[1..] == raw;
  }

  /** Every joining word takes characters away from the pieces. */
  lemma {:induction false} PiecesLength(h: Host, afterWord: bool, m: Mode, depth: nat, s: string)
    ensures var p := PiecesFrom(h, afterWord, m, depth, s);
            p.Some? ==> TotalLength(p.value.raw) + |p.value.words| <= |s|
    decreases |s|
  {
    hide Word, ToLower, TotalLength, Nest;
    if s == "" {
      NoLength();
    } else {
      if AtWord(h, afterWord, m, depth, s[0]) {
        var w := Word(h, s);
        var rest := PiecesFrom(h, true, Plain, 0, s[|w|..]);
        PiecesLength(h, true, Plain, 0, s[|w|..]);
        PiecesLengthGlue(w, rest);
        if rest.Some? {
          LengthAfterCut(rest.value.raw);
        }
      } else {
        PiecesStep(h, afterWord, m, depth, s);
        var st := Nest(Nested(m, depth), s[0]);
        if st.Nested? {
          PiecesLength(h, IsWordRune(h, s[0]), st.mode, st.depth, s[1..]);
          PiecesLengthGlue([s[0]], PiecesFrom(h, IsWordRune(h, s[0]), st.mode, st.depth, s[1..]));
        }
      }
    }
  }

  /** Every nested call of the parser gets a strictly shorter string, unless there is only one group. */
  lemma {:induction false} SplitShorter(h: Host, s: string)
    ensures var sp := SplitTopLevel(h, s);
            sp.Some? ==>
              && |sp.value.groups| == |sp.value.joins| + 1
              && forall i | 0 <= i < |sp.value.groups| ::
                   |sp.value.groups[i]| <= |s| && (|sp.value.groups| > 1 ==> |sp.value.groups[i]| < |s|)
  {
    PiecesLength(h, false, Plain, 0, s);
    var p := PiecesFrom(h, false, Plain, 0, s);
    if p.Some? {
      forall i | 0 <= i < |p.value.raw|
        ensures |p.value.raw[i]| + |p.value.words| <= |s|
      {
        TotalLengthAt(p.value.raw, i);
      }
    }
  }
}

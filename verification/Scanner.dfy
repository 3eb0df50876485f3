/** The quote-aware scanners under the targeting-query parser (internal/goff/parse.go). */
module Scanner {
  import opened Collections
  import opened Strings

  /** What the model takes from outside: the Unicode letters and digits above ASCII, and which numerals
      the float parsers of the server (`strconv.ParseFloat`) and of the browser (`Number`, finite) accept.
      Every result holds for any choice. */
  datatype Host = Host(letters: set<char>, digits: set<char>, float: string -> bool, browserFloat: string -> bool)

  /** `unicode.IsLetter`. */
  predicate IsLetter(h: Host, c: char) {
    'a' <= c <= 'z' || 'A' <= c <= 'Z' || ('\U{80}' <= c && c in h.letters && !IsSpace(c))
  }

  /** `unicode.IsDigit`. */
  predicate IsDigit(h: Host, c: char) {
    '0' <= c <= '9' || ('\U{80}' <= c && c in h.digits && !IsSpace(c))
  }

  predicate IsWordRune(h: Host, c: char) {
    IsLetter(h, c) || IsDigit(h, c) || c == '_' || c == '.' || c == '-'
  }

  /** A non-empty run of word characters. */
  predicate IsWord(h: Host, s: string) {
    s != "" && forall i | 0 <= i < |s| :: IsWordRune(h, s[i])
  }

  predicate IsQuote(c: char) {
    c == '"' || c == '\''
  }

  /** Outside a quoted string, or inside one and perhaps just after its escape character. */
  datatype Mode = Plain | Quoted(quote: char, escaped: bool)

  function NextMode(m: Mode, c: char): Mode {
    match m
    case Plain => if IsQuote(c) then Quoted(c, false) else Plain
    case Quoted(q, escaped) =>
      if escaped then Quoted(q, false)
      else if c == '\\' then Quoted(q, true)
      else if c == q then Plain
      else m
  }

  function ModeAfter(m: Mode, s: string): Mode
    decreases |s|
  {
    if s == "" then m else ModeAfter(NextMode(m, s[0]), s[1..])
  }

  /** Every character of `s` is read inside the quoted string open in `m`; the last may close it. */
  predicate StaysQuoted(m: Mode, s: string)
    decreases |s|
  {
    s == "" || (m.Quoted? && StaysQuoted(NextMode(m, s[0]), s[1..]))
  }

  lemma {:induction false} StaysQuotedConcat(m: Mode, a: string, b: string)
    requires StaysQuoted(m, a) && StaysQuoted(ModeAfter(m, a), b)
    ensures StaysQuoted(m, a + b)
    ensures ModeAfter(m, a + b) == ModeAfter(ModeAfter(m, a), b)
    decreases |a|
  {
    if a == "" {
      assert a + b == b;
    } else {
      assert (a + b)[1..] == a[1..] + b;
      StaysQuotedConcat(NextMode(m, a[0]), a[1..], b);
    }
  }

  // ---------------------------------------------------------------- parentheses

  /** How deep in parentheses a scan is, or that it met a closing one too many. */
  datatype Nesting = Unbalanced | Nested(mode: Mode, depth: nat)

  function Nest(st: Nesting, c: char): Nesting {
    match st
    case Unbalanced => Unbalanced
    case Nested(mode, depth) =>
      if mode == Plain && c == '(' then Nested(Plain, depth + 1)
      else if mode == Plain && c == ')' then (if depth == 0 then Unbalanced else Nested(Plain, depth - 1))
      else Nested(NextMode(mode, c), depth)
  }

  function NestAll(st: Nesting, s: string): Nesting
    decreases |s|
  {
    if s == "" then st else NestAll(Nest(st, s[0]), s[1..])
  }

  const OUTSIDE := Nested(Plain, 0)

  /** `balanced`: every parenthesis outside quotes is matched. An unclosed quote is not an error. */
  predicate Balanced(s: string) {
    Closed(NestAll(OUTSIDE, s))
  }

  predicate Closed(st: Nesting) {
    st.Nested? && st.depth == 0
  }

  lemma {:induction false} NestConcat(st: Nesting, a: string, b: string)
    ensures NestAll(st, a + b) == NestAll(NestAll(st, a), b)
    decreases |a|
  {
    if a == "" {
      assert a + b == b;
    } else {
      assert (a + b)[1..] == a[1..] + b;
      NestConcat(Nest(st, a[0]), a[1..], b);
    }
  }

  lemma {:induction false} NestUnbalanced(s: string)
    ensures NestAll(Unbalanced, s) == Unbalanced
  {
    if s != "" {
      NestUnbalanced(s[1..]);
    }
  }

  lemma {:induction false} NestQuoted(m: Mode, depth: nat, s: string)
    requires StaysQuoted(m, s)
    ensures NestAll(Nested(m, depth), s) == Nested(ModeAfter(m, s), depth)
    decreases |s|
  {
    if s != "" {
      NestQuoted(NextMode(m, s[0]), depth, s[1..]);
    }
  }

  /** What a scan does inside one more pair of parentheses. */
  lemma {:induction false} NestDeeper(m: Mode, depth: nat, s: string)
    requires NestAll(Nested(m, depth), s).Nested?
    ensures var st := NestAll(Nested(m, depth), s);
            NestAll(Nested(m, depth + 1), s) == Nested(st.mode, st.depth + 1)
    decreases |s|
  {
    if s != "" {
      var st := Nest(Nested(m, depth), s[0]);
      if st == Unbalanced {
        NestUnbalanced(s[1..]);
      } else {
        NestDeeper(st.mode, st.depth, s[1..]);
      }
    }
  }

  function ModeOf(inString: char): Mode {
    if inString == '\0' then Plain else Quoted(inString, false)
  }

  /** Two steps of a scan at an escape pair inside quotes. */
  lemma {:induction false} NestEscape(q: char, depth: nat, s: string)
    requires |s| >= 2 && s[0] == '\\'
    ensures NestAll(Nested(Quoted(q, false), depth), s) == NestAll(Nested(Quoted(q, false), depth), s[2..])
  {
    assert s[1..][1..] == s[2..];
  }

  /** The index loop of `balanced`. */
  method ScanBalanced(s: string) returns (ok: bool)
    ensures ok == Balanced(s)
  {
    var depth: int := 0;
    var inString := '\0';
    var i := 0;
    while i < |s|
      invariant 0 <= i <= |s| && depth >= 0
      invariant inString == '\0' || IsQuote(inString)
      invariant Balanced(s) == Closed(NestAll(Nested(ModeOf(inString), depth), s[i..]))
    {
      var c := s[i];
      assert s[i..][1..] == s[i + 1..];
      if inString != '\0' {
        if c == '\\' && i + 1 < |s| {
          NestEscape(inString, depth, s[i..]);
          assert s[i..][2..] == s[i + 2..];
          i := i + 1;
        } else if c == inString {
          inString := '\0';
        } else if c == '\\' {
          assert s[i + 1..] == "";
        }
      } else if IsQuote(c) {
        inString := c;
      } else if c == '(' {
        depth := depth + 1;
      } else if c == ')' {
        depth := depth - 1;
        if depth < 0 {
          NestUnbalanced(s[i + 1..]);
          return false;
        }
      }
      i := i + 1;
    }
    ok := depth == 0;
  }

  // ---------------------------------------------------------------- tokens

  /** The tokens of `s`, the first of them continuing `current`: text is cut at white space outside quotes
      and outside brackets. */
  function TokensFrom(current: string, m: Mode, depth: int, s: string): seq<string>
    decreases |s|
  {
    if s == "" then
      if current == "" then [] else [current]
    else
      var c := s[0];
      if m == Plain && !IsQuote(c) && c != '[' && c != ']' && IsSpace(c) && depth == 0 then
        (if current == "" then [] else [current]) + TokensFrom("", Plain, 0, s[1..])
      else
        var d := if m != Plain then depth else if c == '[' then depth + 1 else if c == ']' then depth - 1 else depth;
        TokensFrom(current + [c], NextMode(m, c), d, s[1..])
  }

  function Tokens(s: string): seq<string> {
    TokensFrom("", Plain, 0, s)
  }

  lemma {:induction false} TokensQuoted(current: string, m: Mode, depth: int, a: string, rest: string)
    requires StaysQuoted(m, a)
    ensures TokensFrom(current, m, depth, a + rest) == TokensFrom(current + a, ModeAfter(m, a), depth, rest)
    decreases |a|
  {
    if a == "" {
      assert a + rest == rest && current + a == current;
    } else {
      assert (a + rest)[1..] == a[1..] + rest;
      TokensQuoted(current + [a[0]], NextMode(m, a[0]), depth, a[1..], rest);
      assert current + [a[0]] + a[1..] == current + a;
    }
  }

  /** No quote, bracket, parenthesis or white space. */
  predicate IsBare(s: string) {
    forall i | 0 <= i < |s| ::
      !IsSpace(s[i]) && !IsQuote(s[i]) && s[i] != '[' && s[i] != ']' && s[i] != '(' && s[i] != ')'
  }

  lemma {:induction false} TokensBare(current: string, depth: int, a: string, rest: string)
    requires IsBare(a)
    ensures TokensFrom(current, Plain, depth, a + rest) == TokensFrom(current + a, Plain, depth, rest)
    decreases |a|
  {
    if a == "" {
      assert a + rest == rest && current + a == current;
    } else {
      assert (a + rest)[1..] == a[1..] + rest;
      TokensBare(current + [a[0]], depth, a[1..], rest);
      assert current + [a[0]] + a[1..] == current + a;
    }
  }

  lemma {:induction false} NestBare(depth: nat, a: string)
    requires IsBare(a)
    ensures NestAll(Nested(Plain, depth), a) == Nested(Plain, depth)
  {
    if a != "" {
      NestBare(depth, a[1..]);
    }
  }

  lemma {:induction false} TokensEscape(current: string, q: char, depth: int, s: string)
    requires |s| >= 2 && s[0] == '\\'
    ensures TokensFrom(current, Quoted(q, false), depth, s)
         == TokensFrom(current + s[..2], Quoted(q, false), depth, s[2..])
  {
    assert s[1..][1..] == s[2..];
    assert current + [s[0]] + [s[1]] == current + s[..2];
  }

  /** The index loop of `tokenize`. */
  method Tokenize(s: string) returns (tokens: seq<string>)
    ensures tokens == Tokens(s)
  {
    tokens := [];
    var current, inString, depth := "", '\0', 0;
    var i := 0;
    while i < |s|
      invariant 0 <= i <= |s|
      invariant inString == '\0' || IsQuote(inString)
      invariant Tokens(s) == tokens + TokensFrom(current, ModeOf(inString), depth, s[i..])
    {
      var c := s[i];
      assert s[i..][1..] == s[i + 1..];
      if inString != '\0' {
        if c == '\\' && i + 1 < |s| {
          TokensEscape(current, inString, depth, s[i..]);
          assert s[i..][2..] == s[i + 2..] && s[i..][..2] == [c, s[i + 1]];
          current := current + [c];
          i := i + 1;
          current := current + [s[i]];
          assert current[..|current| - 2] + [c, s[i]] == current;
        } else {
          current := current + [c];
          if c == inString {
            inString := '\0';
          } else if c == '\\' {
            assert s[i + 1..] == "";
          }
        }
      } else if IsQuote(c) {
        inString := c;
        current := current + [c];
      } else if c == '[' {
        depth := depth + 1;
        current := current + [c];
      } else if c == ']' {
        depth := depth - 1;
        current := current + [c];
      } else if IsSpace(c) && depth == 0 {
        if |current| > 0 {
          tokens := tokens + [current];
          current := "";
        }
      } else {
        current := current + [c];
      }
      i := i + 1;
    }
    if |current| > 0 {
      tokens := tokens + [current];
    }
  }

  // ---------------------------------------------------------------- words

  /** `readWord`: the longest run of word characters at the front. */
  function Word(h: Host, s: string): (w: string)
    ensures |w| <= |s|
    ensures s != "" && IsWordRune(h, s[0]) ==> w != ""
  {
    if s != "" && IsWordRune(h, s[0]) then [s[0]] + Word(h, s[1..]) else ""
  }

  lemma {:induction false} WordLongest(h: Host, w: string, rest: string)
    requires forall i | 0 <= i < |w| :: IsWordRune(h, w[i])
    requires rest == "" || !IsWordRune(h, rest[0])
    ensures Word(h, w + rest) == w
  {
    if w == "" {
      assert w + rest == rest;
    } else {
      assert (w + rest)[1..] == w[1..] + rest;
      WordLongest(h, w[1..], rest);
    }
  }

  lemma {:induction false} WordIsPrefix(h: Host, s: string)
    ensures var w := Word(h, s);
            && s == w + s[|w|..]
            && (forall i | 0 <= i < |w| :: IsWordRune(h, w[i]))
            && (|w| < |s| ==> !IsWordRune(h, s[|w|]))
  {
    if s != "" && IsWordRune(h, s[0]) {
      WordIsPrefix(h, s[1..]);
      assert s == [s[0]] + s[1..];
    }
  }

  /** The index loop of `readWord`. */
  method ReadWord(h: Host, s: string, i: nat) returns (word: string, next: nat)
    requires i <= |s|
    ensures word == Word(h, s[i..]) && next == i + |word| <= |s|
  {
    var j := i;
    while j < |s| && IsWordRune(h, s[j])
      invariant i <= j <= |s|
      invariant forall k | i <= k < j :: IsWordRune(h, s[k])
    {
      j := j + 1;
    }
    word, next := s[i..j], j;
    assert s[i..] == s[i..j] + s[j..];
    WordLongest(h, s[i..j], s[j..]);
  }

  // ---------------------------------------------------------------- quoting

  /** The escaping replacer: a backslash before every backslash and every double quote. */
  function Escape(v: string): string {
    if v == "" then ""
    else if v[0] == '\\' || v[0] == '"' then ['\\', v[0]] + Escape(v[1..])
    else [v[0]] + Escape(v[1..])
  }

  function Quote(v: string): string {
    "\"" + Escape(v) + "\""
  }

  /** The unescaping replacer, left to right. */
  function Unescape(s: string): string {
    if s == "" then ""
    else if |s| >= 2 && s[0] == '\\' && (s[1] == '"' || s[1] == '\\' || s[1] == '\'') then [s[1]] + Unescape(s[2..])
    else [s[0]] + Unescape(s[1..])
  }

  /** `unquote`. */
  function Unquote(raw: string): string {
    var s := Trim(raw);
    if |s| >= 2 && IsQuote(s[0]) && s[|s| - 1] == s[0] then Unescape(s[1..|s| - 1]) else s
  }

  lemma {:induction false} UnescapeEscape(v: string)
    ensures Unescape(Escape(v)) == v
  {
    if v != "" {
      UnescapeEscape(v[1..]);
      assert v == [v[0]] + v[1..];
      if v[0] == '\\' || v[0] == '"' {
        assert Escape(v)[2..] == Escape(v[1..]);
      } else {
        assert Escape(v)[1..] == Escape(v[1..]);
      }
    }
  }

  /** Quoting is undone exactly, whatever quotes and backslashes the value holds. */
  lemma {:induction false} UnquoteQuote(v: string)
    ensures Unquote(Quote(v)) == v
  {
    var s := Quote(v);
    assert s[0] == '"' && s[|s| - 1] == '"';
    assert s[1..|s| - 1] == Escape(v);
    UnescapeEscape(v);
  }

  lemma {:induction false} QuotedStep(m: Mode, c: char, s: string)
    ensures StaysQuoted(m, [c] + s) == (m.Quoted? && StaysQuoted(NextMode(m, c), s))
    ensures ModeAfter(m, [c] + s) == ModeAfter(NextMode(m, c), s)
  {
    assert ([c] + s)[1..] == s;
  }

  lemma {:induction false} EscapeStep(v: string)
    ensures Escape(v) ==
            if v == "" then ""
            else if v[0] == '\\' || v[0] == '"' then ['\\'] + ([v[0]] + Escape(v[1..]))
            else [v[0]] + Escape(v[1..])
  {
    if v != "" {
      Concat3(['\\'], [v[0]], Escape(v[1..]));
    }
  }

  lemma {:induction false} NothingStays(m: Mode)
    ensures StaysQuoted(m, "") && ModeAfter(m, "") == m
  {
  }

  lemma {:induction false} EscapeStaysQuoted(v: string)
    ensures StaysQuoted(Quoted('"', false), Escape(v))
    ensures ModeAfter(Quoted('"', false), Escape(v)) == Quoted('"', false)
  {
    hide Escape, StaysQuoted, ModeAfter;
    EscapeStep(v);
    if v == "" {
      NothingStays(Quoted('"', false));
    } else {
      EscapeStaysQuoted(v[1..]);
      if v[0] == '\\' || v[0] == '"' {
        QuotedStep(Quoted('"', false), '\\', [v[0]] + Escape(v[1..]));
        QuotedStep(Quoted('"', true), v[0], Escape(v[1..]));
      } else {
        QuotedStep(Quoted('"', false), v[0], Escape(v[1..]));
      }
    }
  }

  /** Whatever the value holds, a scan that enters its quoted form leaves string mode exactly at the closing
      quote: never before it, and always there. */
  lemma {:induction false} QuoteIsOpaque(v: string)
    ensures var body := Quote(v)[1..];
            && StaysQuoted(Quoted('"', false), body)
            && ModeAfter(Quoted('"', false), body) == Plain
            && forall k | 0 <= k < |body| :: ModeAfter(Quoted('"', false), body[..k]) != Plain
  {
    var body := Quote(v)[1..];
    assert body == Escape(v) + "\"";
    EscapeStaysQuoted(v);
    StaysQuotedConcat(Quoted('"', false), Escape(v), "\"");
    forall k | 0 <= k < |body|
      ensures ModeAfter(Quoted('"', false), body[..k]) != Plain
    {
      StaysQuotedPrefix(Quoted('"', false), body, k);
    }
  }

  lemma {:induction false} StaysQuotedPrefix(m: Mode, s: string, k: nat)
    requires StaysQuoted(m, s) && k < |s|
    ensures ModeAfter(m, s[..k]).Quoted?
    decreases |s|
  {
    if k > 0 {
      assert s[..k][1..] == s[1..][..k - 1];
      StaysQuotedPrefix(NextMode(m, s[0]), s[1..], k - 1);
    }
  }
}

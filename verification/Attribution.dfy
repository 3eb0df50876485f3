/** Who changed what, kept as object metadata of at most two kilobytes of printable ASCII
    (backends/s3/attribution.go). Encoded words are those of sections 2 and 4.1 of RFC 2047, Base64 that of section 4
    of RFC 4648. */
module Attribution {
  import opened Options

  type Byte = x: int | 0 <= x < 256

  type Bytes = seq<Byte>

  function Ascii(text: string): (b: Bytes)
    requires forall i | 0 <= i < |text| :: text[i] as int < 128
    ensures |b| == |text| && forall i | 0 <= i < |text| :: b[i] == text[i] as int
  {
    seq(|text|, i requires 0 <= i < |text| => text[i] as int)
  }

  const SPACE: Byte := ' ' as int
  const TILDE: Byte := '~' as int
  const EQUALS: Byte := '=' as int
  const QUESTION: Byte := '?' as int

  // ---------------------------------------------------------------- Base64

  function Letter(n: nat): (c: Byte)
    requires n < 64
    ensures 'A' as int <= c <= 'Z' as int || 'a' as int <= c <= 'z' as int || '0' as int <= c <= '9' as int
            || c == '+' as int || c == '/' as int
  {
    if n < 26 then n + 'A' as int
    else if n < 52 then n - 26 + 'a' as int
    else if n < 62 then n - 52 + '0' as int
    else if n == 62 then '+' as int
    else '/' as int
  }

  function LetterValue(c: Byte): Option<nat> {
    if 'A' as int <= c <= 'Z' as int then Some(c - 'A' as int)
    else if 'a' as int <= c <= 'z' as int then Some(c - 'a' as int + 26)
    else if '0' as int <= c <= '9' as int then Some(c - '0' as int + 52)
    else if c == '+' as int then Some(62)
    else if c == '/' as int then Some(63)
    else None
  }

  function Encode64(s: Bytes): Bytes {
    if s == [] then []
    else if |s| == 1 then [Letter(s[0] / 4), Letter(s[0] % 4 * 16), EQUALS, EQUALS]
    else if |s| == 2 then
      [Letter(s[0] / 4), Letter(s[0] % 4 * 16 + s[1] / 16), Letter(s[1] % 16 * 4), EQUALS]
    else
      [Letter(s[0] / 4), Letter(s[0] % 4 * 16 + s[1] / 16), Letter(s[1] % 16 * 4 + s[2] / 64), Letter(s[2] % 64)]
      + Encode64(s[3..])
  }

  function Decode64(t: Bytes): Option<Bytes> {
    if t == [] then Some([])
    else if |t| < 4 then None
    else
      match (LetterValue(t[0]), LetterValue(t[1]))
      case (Some(w), Some(x)) =>
        var first := (w * 4 + x / 16) % 256;
        if |t| == 4 && t[2] == EQUALS && t[3] == EQUALS then Some([first])
        else
          (match LetterValue(t[2])
           case None => None
           case Some(y) =>
             var second := (x % 16 * 16 + y / 4) % 256;
             if |t| == 4 && t[3] == EQUALS then Some([first, second])
             else
               match (LetterValue(t[3]), Decode64(t[4..]))
               case (Some(z), Some(rest)) => Some([first, second, (y % 4 * 64 + z) % 256] + rest)
               case _ => None)
      case _ => None
  }

  lemma {:induction false} LetterReads(n: nat)
    requires n < 64
    ensures LetterValue(Letter(n)) == Some(n)
  {
  }

  /** Six bits at a time and back. */
  lemma {:induction false} SixBits(a: Byte, b: Byte, c: Byte)
    ensures var w, x, y, z := a / 4, a % 4 * 16 + b / 16, b % 16 * 4 + c / 64, c % 64;
            && w < 64 && x < 64 && y < 64 && z < 64
            && (w * 4 + x / 16) % 256 == a && (x % 16 * 16 + y / 4) % 256 == b && (y % 4 * 64 + z) % 256 == c
  {
    var w, x, y, z := a / 4, a % 4 * 16 + b / 16, b % 16 * 4 + c / 64, c % 64;
    assert x / 16 == a % 4 && x % 16 == b / 16;
    assert y / 4 == b % 16 && y % 4 == c / 64;
  }

  lemma {:induction false} TwoLetters(w: nat, x: nat)
    requires w < 64 && x < 64
    ensures Decode64([Letter(w), Letter(x), EQUALS, EQUALS]) == Some([(w * 4 + x / 16) % 256])
  {
    hide Letter, LetterValue;
    LetterReads(w);
    LetterReads(x);
  }

  lemma {:induction false} ThreeLetters(w: nat, x: nat, y: nat)
    requires w < 64 && x < 64 && y < 64
    ensures Decode64([Letter(w), Letter(x), Letter(y), EQUALS]) ==
            Some([(w * 4 + x / 16) % 256, (x % 16 * 16 + y / 4) % 256])
  {
    hide Letter, LetterValue;
    LetterReads(w);
    LetterReads(x);
    LetterReads(y);
  }

  lemma {:induction false} FourLetters(w: nat, x: nat, y: nat, z: nat, later: Bytes, rest: Bytes)
    requires w < 64 && x < 64 && y < 64 && z < 64 && Decode64(later) == Some(rest)
    ensures Decode64([Letter(w), Letter(x), Letter(y), Letter(z)] + later) ==
            Some([(w * 4 + x / 16) % 256, (x % 16 * 16 + y / 4) % 256, (y % 4 * 64 + z) % 256] + rest)
  {
    hide Letter, LetterValue;
    LetterReads(w);
    LetterReads(x);
    LetterReads(y);
    LetterReads(z);
    var t := [Letter(w), Letter(x), Letter(y), Letter(z)] + later;
    assert t[4..] == later;
    assert t[0] == Letter(w) && t[1] == Letter(x) && t[2] == Letter(y) && t[3] == Letter(z);
  }

  lemma {:induction false} OneByte(a: Byte)
    ensures Decode64([Letter(a / 4), Letter(a % 4 * 16), EQUALS, EQUALS]) == Some([a])
  {
    hide Letter, Decode64;
    SixBits(a, 0, 0);
    TwoLetters(a / 4, a % 4 * 16);
  }

  lemma {:induction false} TwoBytes(a: Byte, b: Byte)
    ensures a % 4 * 16 + b / 16 < 64
    ensures Decode64([Letter(a / 4), Letter(a % 4 * 16 + b / 16), Letter(b % 16 * 4), EQUALS]) == Some([a, b])
  {
    hide Letter, Decode64;
    SixBits(a, b, 0);
    ThreeLetters(a / 4, a % 4 * 16 + b / 16, b % 16 * 4);
  }

  lemma {:induction false} ThreeBytes(a: Byte, b: Byte, c: Byte, later: Bytes, rest: Bytes)
    requires Decode64(later) == Some(rest)
    ensures a % 4 * 16 + b / 16 < 64 && b % 16 * 4 + c / 64 < 64
    ensures Decode64([Letter(a / 4), Letter(a % 4 * 16 + b / 16), Letter(b % 16 * 4 + c / 64), Letter(c % 64)] + later)
            == Some([a, b, c] + rest)
  {
    hide Letter, Decode64;
    SixBits(a, b, c);
    FourLetters(a / 4, a % 4 * 16 + b / 16, b % 16 * 4 + c / 64, c % 64, later, rest);
  }

  lemma {:induction false} Base64RoundTrip(s: Bytes)
    ensures Decode64(Encode64(s)) == Some(s)
  {
    hide Letter, LetterValue, Decode64;
    if s == [] {
      NothingReads();
    } else if |s| == 1 {
      OneByte(s[0]);
      assert s == [s[0]];
    } else if |s| == 2 {
      TwoBytes(s[0], s[1]);
      assert s == [s[0], s[1]];
    } else {
      Base64RoundTrip(s[3..]);
      ThreeBytes(s[0], s[1], s[2], Encode64(s[3..]), s[3..]);
      assert s == [s[0], s[1], s[2]] + s[3..];
    }
  }

  lemma {:induction false} NothingReads()
    ensures Decode64([]) == Some([])
  {
  }

  predicate Base64Text(t: Bytes) {
    forall i | 0 <= i < |t| :: SPACE < t[i] <= TILDE && t[i] != QUESTION
  }

  lemma {:induction false} Base64Shape(s: Bytes)
    ensures |Encode64(s)| == (|s| + 2) / 3 * 4
    ensures Base64Text(Encode64(s))
  {
    hide Letter;
    if |s| > 2 {
      Base64Shape(s[3..]);
    }
  }

  // ---------------------------------------------------------------- values

  /** Where an encoded word could begin. */
  predicate HasWordStart(v: Bytes) {
    exists i | 0 <= i < |v| - 1 :: v[i] == EQUALS && v[i + 1] == QUESTION
  }

  predicate Printable(v: Bytes) {
    forall i | 0 <= i < |v| :: SPACE <= v[i] <= TILDE
  }

  /** `isPlainASCII`: printable, nothing that looks like an encoded word, and no space at the ends. */
  predicate IsPlain(v: Bytes) {
    !HasWordStart(v) && Printable(v) && (v == [] || (v[0] != SPACE && v[|v| - 1] != SPACE))
  }

  const WORD_START := "=?UTF-8?B?"

  function EncodedWord(v: Bytes): Bytes {
    Ascii(WORD_START) + Encode64(v) + Ascii("?=")
  }

  /** `encodeValue`. */
  function EncodeValue(v: Bytes): Bytes {
    if IsPlain(v) then v else EncodedWord(v)
  }

  /** A value is stored as it is exactly if it is printable ASCII without white space at its ends and without the two
      characters an encoded word starts with; any other is stored as one encoded word. */
  lemma {:induction false} StoredAsItIs(v: Bytes)
    ensures EncodeValue(v) == v <==>
              && (forall i | 0 <= i < |v| :: 0x20 <= v[i] <= 0x7E)
              && (forall i | 0 < i < |v| && v[i - 1] == 0x3D :: v[i] != 0x3F)
              && (v == [] || (v[0] != 0x20 && v[|v| - 1] != 0x20))
    ensures EncodeValue(v) != v ==> EncodeValue(v) == EncodedWord(v)
  {
    hide EncodedWord;
    EncodedIsLonger(v);
    if i :| 0 < i < |v| && v[i - 1] == 0x3D && v[i] == 0x3F {
      var k := i - 1;
      assert v[k] == EQUALS && v[k + 1] == QUESTION;
    }
  }

  lemma {:induction false} EncodedIsLonger(v: Bytes)
    ensures |EncodedWord(v)| > |v|
  {
    hide Encode64;
    Base64Shape(v);
  }

  function IndexOf(v: Bytes, c: Byte, from: nat): (i: nat)
    requires from <= |v|
    ensures from <= i <= |v|
    ensures forall k | from <= k < i :: v[k] != c
    ensures i < |v| ==> v[i] == c
    decreases |v| - from
  {
    if from < |v| && v[from] != c then IndexOf(v, c, from + 1) else from
  }

  function LowerByte(c: Byte): Byte {
    if 'A' as int <= c <= 'Z' as int then c + 32 else c
  }

  predicate IsUtf8Name(charset: Bytes) {
    |charset| == 5 && forall i | 0 <= i < 5 :: LowerByte(charset[i]) == Ascii("utf-8")[i]
  }

  /** A value that is one encoded word: the start, a charset, an encoding, the text and the end. */
  function ReadWord(v: Bytes): Option<Bytes> {
    if |v| < 2 || v[0] != EQUALS || v[1] != QUESTION then None
    else
      var mark := IndexOf(v, QUESTION, 2);
      if |v| < mark + 5 || !IsUtf8Name(v[2..mark]) || LowerByte(v[mark + 1]) != 'b' as int
         || v[mark + 2] != QUESTION then None
      else
        var end := IndexOf(v, QUESTION, mark + 3);
        if end + 2 != |v| || v[end + 1] != EQUALS then None else Decode64(v[mark + 3..end])
  }

  /** `decodeValue`, for values that are plain or one encoded word. */
  function DecodeValue(v: Bytes): Bytes {
    if !HasWordStart(v) then v
    else
      match ReadWord(v)
      case Some(text) => text
      case None => v
  }

  lemma {:induction false} IndexIs(v: Bytes, c: Byte, from: nat, i: nat)
    requires from <= i < |v| && v[i] == c && forall k | from <= k < i :: v[k] != c
    ensures IndexOf(v, c, from) == i
  {
    var k := IndexOf(v, c, from);
  }

  lemma {:induction false} WordReads(v: Bytes)
    ensures var word := Ascii(WORD_START) + Encode64(v) + Ascii("?=");
            HasWordStart(word) && ReadWord(word) == Some(v)
  {
    hide Decode64, Encode64;
    var start, text := Ascii(WORD_START), Encode64(v);
    var word := start + text + Ascii("?=");
    Base64RoundTrip(v);
    Base64Shape(v);
    assert word[0] == EQUALS && word[1] == QUESTION;
    assert word[2] == 'U' as int && word[3] == 'T' as int && word[4] == 'F' as int && word[5] == '-' as int
           && word[6] == '8' as int && word[7] == QUESTION && word[8] == 'B' as int && word[9] == QUESTION;
    IndexIs(word, QUESTION, 2, 7);
    var end := 10 + |text|;
    forall k | 10 <= k < end
      ensures word[k] != QUESTION
    {
      assert word[k] == text[k - 10];
    }
    IndexIs(word, QUESTION, 10, end);
    assert word[10..end] == text;
    assert IsUtf8Name(word[2..7]);
  }

  /** Whatever is stored reads back as it was, byte for byte. */
  lemma {:induction false} ValueRoundTrip(v: Bytes)
    ensures DecodeValue(EncodeValue(v)) == v
  {
    if !IsPlain(v) {
      WordReads(v);
    }
  }

  lemma {:induction false} PrintableConcat(a: Bytes, b: Bytes)
    requires Printable(a) && Printable(b)
    ensures Printable(a + b)
  {
  }

  lemma {:induction false} ConstantsPrintable()
    ensures Printable(Ascii(WORD_START)) && Printable(Ascii("?=")) && Printable([])
  {
  }

  /** What is stored is always printable ASCII, and its size is bounded. */
  lemma {:induction false} StoredShape(v: Bytes)
    ensures Printable(EncodeValue(v))
    ensures |v| <= |EncodeValue(v)| <= (|v| + 2) / 3 * 4 + 12
  {
    hide Encode64, Printable, HasWordStart, Ascii;
    Base64Shape(v);
    Base64Printable(Encode64(v));
    ConstantsPrintable();
    PrintableConcat(Ascii(WORD_START), Encode64(v));
    PrintableConcat(Ascii(WORD_START) + Encode64(v), Ascii("?="));
  }

  lemma {:induction false} Base64Printable(t: Bytes)
    requires Base64Text(t)
    ensures Printable(t)
  {
  }

  // ---------------------------------------------------------------- cutting

  /** The UTF-8 package: which strings are valid, and the size of the last rune, one for a broken one. */
  datatype Utf8 = Utf8(valid: Bytes -> bool, lastRune: Bytes -> nat)

  ghost predicate CountsRunes(u: Utf8) {
    forall s: Bytes | s != [] :: 1 <= u.lastRune(s) <= |s|
  }

  /** A cut that does not split a rune. */
  predicate CutOf(u: Utf8, cut: Bytes, s: Bytes, limit: int) {
    cut <= s && (|cut| <= limit || cut == []) && (cut == s || cut == [] || u.valid(cut))
  }

  /** The longest start of a text that fits and splits no rune. */
  ghost predicate IsLongestCut(u: Utf8, cut: Bytes, s: Bytes, limit: int) {
    && CutOf(u, cut, s, limit)
    && (|s| <= limit ==> cut == s)
    && forall longer: Bytes | longer <= s && |cut| < |longer| <= limit :: |s| > limit ==> !u.valid(longer)
  }

  /** `truncateBytes`. */
  method TruncateBytes(u: Utf8, s: Bytes, limit: int) returns (cut: Bytes)
    ensures IsLongestCut(u, cut, s, limit) && cut <= s
  {
    if limit <= 0 {
      return [];
    }
    if |s| <= limit {
      return s;
    }
    var n: nat := limit;
    while n > 0 && !u.valid(s[..n])
      invariant n <= limit
      invariant forall longer: Bytes | longer <= s && n < |longer| <= limit :: !u.valid(longer)
    {
      forall longer: Bytes | longer <= s && n - 1 < |longer| <= limit
        ensures !u.valid(longer)
      {
        if |longer| == n {
          assert longer == s[..n];
        }
      }
      n := n - 1;
    }
    return s[..n];
  }

  const ELLIPSIS := "..."

  /** The text itself, or a part of it from the start and three dots. */
  predicate WholeOrCut(text: Bytes, s: Bytes) {
    text == s || (|text| >= 3 && text[|text| - 3..] == Ascii(ELLIPSIS) && text[..|text| - 3] <= s)
  }

  /** `truncate`. */
  method Truncate(u: Utf8, s: Bytes, limit: nat) returns (text: Bytes)
    requires limit >= 3
    ensures |text| <= limit && WholeOrCut(text, s)
    ensures |s| <= limit ==> text == s
    ensures |s| > limit ==>
              && |text| >= 3 && text[|text| - 3..] == Ascii("...")
              && IsLongestCut(u, text[..|text| - 3], s, limit - 3)
  {
    if |s| <= limit {
      return s;
    }
    var cut := TruncateBytes(u, s, limit - 3);
    text := cut + Ascii(ELLIPSIS);
    assert text[..|text| - 3] == cut && text[|text| - 3..] == Ascii(ELLIPSIS);
  }

  /** From one cut to a shorter one by leaving out the last rune again and again. */
  ghost predicate ShedsTo(u: Utf8, from: Bytes, to: Bytes)
    decreases |from|
  {
    from == to
    || (from != [] && 1 <= u.lastRune(from) <= |from| && ShedsTo(u, from[..|from| - u.lastRune(from)], to))
  }

  lemma {:induction false} ShedsOneMore(u: Utf8, from: Bytes, to: Bytes)
    requires ShedsTo(u, from, to) && to != [] && 1 <= u.lastRune(to) <= |to|
    ensures ShedsTo(u, from, to[..|to| - u.lastRune(to)])
    ensures forall c | ShedsTo(u, from, c) && |c| > |to| - u.lastRune(to) :: |c| >= |to|
    decreases |from|
  {
    var shorter := to[..|to| - u.lastRune(to)];
    if from != to {
      ShedsOneMore(u, from[..|from| - u.lastRune(from)], to);
      ShedsShorter(u, from[..|from| - u.lastRune(from)], to);
    } else {
      assert ShedsTo(u, shorter, shorter);
      forall c | ShedsTo(u, from, c) && |c| > |shorter|
        ensures |c| >= |to|
      {
        if c != from {
          ShedsShorter(u, shorter, c);
        }
      }
    }
  }

  lemma {:induction false} ShedsShorter(u: Utf8, from: Bytes, to: Bytes)
    requires ShedsTo(u, from, to)
    ensures |to| <= |from|
    decreases |from|
  {
    if from != to {
      ShedsShorter(u, from[..|from| - u.lastRune(from)], to);
    }
  }

  /** A message that has to be cut is cut no further than it must, dropping one rune after another. */
  ghost predicate IsCutToFit(u: Utf8, stored: Bytes, message: Bytes, budget: int, start: Bytes, cut: Bytes) {
    && IsLongestCut(u, start, message, budget - 3) && ShedsTo(u, start, cut)
    && stored == (if cut == [] then Ascii("...") else EncodeValue(cut + Ascii("...")))
    && NoLongerFits(u, start, cut, budget)
  }

  ghost predicate NoLongerFits(u: Utf8, start: Bytes, cut: Bytes, budget: int) {
    forall longer | ShedsTo(u, start, longer) && |longer| > |cut| :: |EncodeValue(longer + Ascii("..."))| > budget
  }

  lemma {:induction false} NextShorter(u: Utf8, start: Bytes, cut: Bytes, budget: int)
    requires CountsRunes(u) && cut != [] && ShedsTo(u, start, cut) && NoLongerFits(u, start, cut, budget)
    requires |EncodeValue(cut + Ascii("..."))| > budget
    ensures 1 <= u.lastRune(cut) <= |cut|
    ensures var next := cut[..|cut| - u.lastRune(cut)];
            ShedsTo(u, start, next) && NoLongerFits(u, start, next, budget)
  {
    hide EncodeValue, Ascii, ShedsTo;
    ShedsOneMore(u, start, cut);
    OnlyOneOfItsLength(u, start, cut);
  }

  lemma {:induction false} ShortenedText(message: Bytes, cut: Bytes)
    requires cut <= message
    ensures WholeOrCut(cut + Ascii("..."), message)
  {
    var text := cut + Ascii("...");
    assert text[..|text| - 3] == cut && text[|text| - 3..] == Ascii("...");
  }

  /** `fitMessage`: what is stored fits, and reads back as the message or as the start of it and three dots. */
  method FitMessage(u: Utf8, message: Bytes, budget: int)
    returns (stored: Bytes, ghost start: Bytes, ghost kept: Bytes)
    requires CountsRunes(u)
    ensures stored == [] || |stored| <= budget
    ensures budget <= 3 ==> stored == []
    ensures budget > 3 ==> WholeOrCut(DecodeValue(stored), message)
    ensures budget > 3 && |EncodeValue(message)| <= budget ==>
              stored == EncodeValue(message) && DecodeValue(stored) == message
    ensures budget > 3 && |EncodeValue(message)| > budget ==> IsCutToFit(u, stored, message, budget, start, kept)
    ensures Printable(stored)
  {
    hide EncodeValue, DecodeValue, Printable, ShedsTo, IsLongestCut, NoLongerFits, WholeOrCut, Ascii, IsCutToFit;
    start, kept := [], [];
    if budget <= 3 {
      EmptyIsPrintable();
      stored := [];
      return;
    }
    stored := EncodeValue(message);
    ValueRoundTrip(message);
    StoredShape(message);
    if |stored| <= budget {
      WholeText(message);
      return;
    }
    var cut := TruncateBytes(u, message, budget - 3);
    start := cut;
    ShedsNothing(u, cut, budget);
    while cut != []
      invariant cut <= message
      invariant ShedsTo(u, start, cut) && NoLongerFits(u, start, cut, budget)
      decreases |cut|
    {
      var text := cut + Ascii(ELLIPSIS);
      ShortenedText(message, cut);
      stored := EncodeValue(text);
      ValueRoundTrip(text);
      StoredShape(text);
      if |stored| <= budget {
        kept := cut;
        CutsToFit(u, stored, message, budget, start, cut);
        return;
      }
      NextShorter(u, start, cut, budget);
      cut := cut[..|cut| - u.lastRune(cut)];
    }
    stored := Ascii(ELLIPSIS);
    EllipsisIsPlain();
    ShortenedText(message, []);
    assert [] + stored == stored;
    CutsToFit(u, stored, message, budget, start, []);
  }

  lemma {:induction false} CutsToFit(u: Utf8, stored: Bytes, message: Bytes, budget: int, start: Bytes, cut: Bytes)
    requires IsLongestCut(u, start, message, budget - 3) && ShedsTo(u, start, cut)
    requires stored == (if cut == [] then Ascii("...") else EncodeValue(cut + Ascii("...")))
    requires NoLongerFits(u, start, cut, budget)
    ensures IsCutToFit(u, stored, message, budget, start, cut)
  {
    hide EncodeValue, ShedsTo, IsLongestCut, NoLongerFits, Ascii;
  }

  lemma {:induction false} WholeText(message: Bytes)
    ensures WholeOrCut(message, message)
  {
  }

  lemma {:induction false} ShedsNothing(u: Utf8, cut: Bytes, budget: int)
    ensures ShedsTo(u, cut, cut) && NoLongerFits(u, cut, cut, budget)
  {
    hide EncodeValue, Ascii;
    forall longer | ShedsTo(u, cut, longer)
      ensures |longer| <= |cut|
    {
      ShedsShorter(u, cut, longer);
    }
  }

  lemma {:induction false} ShedsPrefix(u: Utf8, from: Bytes, to: Bytes)
    requires ShedsTo(u, from, to)
    ensures to <= from
    decreases |from|
  {
    if from != to {
      ShedsPrefix(u, from[..|from| - u.lastRune(from)], to);
    }
  }

  lemma {:induction false} OnlyOneOfItsLength(u: Utf8, from: Bytes, to: Bytes)
    requires ShedsTo(u, from, to)
    ensures forall c | ShedsTo(u, from, c) && |c| == |to| :: c == to
  {
    ShedsPrefix(u, from, to);
    forall c | ShedsTo(u, from, c) && |c| == |to|
      ensures c == to
    {
      ShedsPrefix(u, from, c);
      assert c == from[..|c|] && to == from[..|to|];
    }
  }

  lemma {:induction false} EmptyIsPrintable()
    ensures Printable([])
  {
  }

  lemma {:induction false} EllipsisIsPlain()
    ensures Printable(Ascii(ELLIPSIS)) && DecodeValue(Ascii(ELLIPSIS)) == Ascii(ELLIPSIS) && |Ascii(ELLIPSIS)| == 3
  {
  }

  // ---------------------------------------------------------------- the metadata

  const LIMIT := 2048
  const IDENTITY_LIMIT := 256

  /** Messages of this size are stored whole whoever sends them. */
  const MESSAGE_ROOM := 675

  const USER_NAME := "studio-user-name"
  const USER_EMAIL := "studio-user-email"
  const USER_ID := "studio-user-id"
  const MESSAGE := "studio-message"

  datatype Identity = Identity(name: Bytes, email: Bytes, subject: Bytes)

  type Metadata = map<string, Bytes>

  const KEYS := [USER_NAME, USER_EMAIL, USER_ID]

  function FieldOf(who: Identity, i: nat): Bytes
    requires i < 3
  {
    if i == 0 then who.name else if i == 1 then who.email else who.subject
  }

  function Room(meta: Metadata, key: string): nat {
    if key in meta then |key| + |meta[key]| else 0
  }

  /** The bytes of every key and every value. */
  function Size(meta: Metadata): nat {
    Room(meta, USER_NAME) + Room(meta, USER_EMAIL) + Room(meta, USER_ID) + Room(meta, MESSAGE)
  }

  /** A field is there exactly when there is something to say; it is printable and reads back as the text, in whole or
      in part from the start, and in whole if that is not too long. */
  predicate Records(meta: Metadata, key: string, text: Bytes, limit: nat) {
    && (key in meta <==> text != [])
    && (key in meta ==>
          && Printable(meta[key])
          && WholeOrCut(DecodeValue(meta[key]), text)
          && (|text| <= limit ==> DecodeValue(meta[key]) == text && meta[key] == EncodeValue(text)))
  }

  lemma {:induction false} SizeWith(meta: Metadata, key: string, value: Bytes)
    requires key !in meta && key in {USER_NAME, USER_EMAIL, USER_ID, MESSAGE}
    ensures Size(meta[key := value]) == Size(meta) + |key| + |value|
  {
    KeysDiffer();
  }

  lemma {:induction false} KeysDiffer()
    ensures |USER_NAME| == 16 && |USER_EMAIL| == 17 && |USER_ID| == 14 && |MESSAGE| == 14
    ensures USER_ID != MESSAGE
  {
    assert USER_ID[7] == 'u' && MESSAGE[7] == 'm';
  }

  /** One identity field. */
  method Record(u: Utf8, meta: Metadata, key: string, value: Bytes) returns (now: Metadata)
    requires key !in meta && key in {USER_NAME, USER_EMAIL, USER_ID}
    ensures now.Keys <= meta.Keys + {key} && forall k | k in meta :: k in now && now[k] == meta[k]
    ensures Records(now, key, value, IDENTITY_LIMIT)
    ensures Size(meta) <= Size(now) <= Size(meta) + 373
  {
    hide EncodeValue, DecodeValue, WholeOrCut, Printable, Size, Ascii;
    if value == [] {
      return meta;
    }
    var text := Truncate(u, value, IDENTITY_LIMIT);
    var encoded := EncodeValue(text);
    ValueRoundTrip(text);
    StoredShape(text);
    SizeWith(meta, key, encoded);
    KeysDiffer();
    return meta[key := encoded];
  }

  /** `attributionMetadata`: whatever the identity and the message, the metadata fits, is printable, and says who it was
      and what was done. */
  method AttributionMetadata(u: Utf8, who: Identity, message: Bytes) returns (meta: Metadata)
    requires CountsRunes(u)
    ensures meta.Keys <= {"studio-user-name", "studio-user-email", "studio-user-id", "studio-message"}
    ensures Size(meta) <= 2048
    ensures Records(meta, "studio-user-name", who.name, 256)
    ensures Records(meta, "studio-user-email", who.email, 256)
    ensures Records(meta, "studio-user-id", who.subject, 256)
    ensures Records(meta, "studio-message", message, 675)
    ensures message != [] && Size(meta - {"studio-message"}) + |"studio-message"| + |EncodeValue(message)| <= 2048 ==>
              "studio-message" in meta && meta["studio-message"] == EncodeValue(message)
  {
    hide Records, Size, EncodeValue;
    var named := RecordIdentity(u, who);
    meta := RecordMessage(u, named, message);
    assert KEYS[0] == USER_NAME && KEYS[1] == USER_EMAIL && KEYS[2] == USER_ID;
    KeysDiffer();
    WithoutMessage(named, meta);
    RecordsUnder(named, meta, USER_NAME, who.name, IDENTITY_LIMIT);
    RecordsUnder(named, meta, USER_EMAIL, who.email, IDENTITY_LIMIT);
    RecordsUnder(named, meta, USER_ID, who.subject, IDENTITY_LIMIT);
  }

  lemma {:induction false} WithoutMessage(named: Metadata, meta: Metadata)
    requires MESSAGE !in named && named.Keys <= meta.Keys <= named.Keys + {MESSAGE}
    requires forall k | k in named :: meta[k] == named[k]
    ensures meta - {MESSAGE} == named
  {
  }

  /** The loop over the identity's fields. */
  method RecordIdentity(u: Utf8, who: Identity) returns (meta: Metadata)
    ensures meta.Keys <= {USER_NAME, USER_EMAIL, USER_ID} && MESSAGE !in meta
    ensures Size(meta) <= 1119
    ensures Records(meta, USER_NAME, who.name, IDENTITY_LIMIT) && Records(meta, USER_EMAIL, who.email, IDENTITY_LIMIT)
    ensures Records(meta, USER_ID, who.subject, IDENTITY_LIMIT)
  {
    hide Records, Size, EncodeValue;
    meta := map[];
    KeysDiffer();
    EmptySize();
    var i: nat := 0;
    while i < 3
      invariant i <= 3
      invariant meta.Keys <= set k | 0 <= k < i :: KEYS[k]
      invariant Size(meta) <= i * 373
      invariant forall k | 0 <= k < i :: Records(meta, KEYS[k], FieldOf(who, k), IDENTITY_LIMIT)
    {
      var now := Record(u, meta, KEYS[i], FieldOf(who, i));
      forall k | 0 <= k < i
        ensures Records(now, KEYS[k], FieldOf(who, k), IDENTITY_LIMIT)
      {
        RecordsUnder(meta, now, KEYS[k], FieldOf(who, k), IDENTITY_LIMIT);
      }
      meta := now;
      i := i + 1;
    }
    assert FieldOf(who, 0) == who.name && FieldOf(who, 1) == who.email && FieldOf(who, 2) == who.subject;
    assert KEYS[0] == USER_NAME && KEYS[1] == USER_EMAIL && KEYS[2] == USER_ID;
  }

  lemma {:induction false} EmptySize()
    ensures Size(map[]) == 0
  {
  }

  lemma {:induction false} RecordsUnder(meta: Metadata, now: Metadata, key: string, text: Bytes, limit: nat)
    requires Records(meta, key, text, limit)
    requires key in now <==> key in meta
    requires key in meta ==> now[key] == meta[key]
    ensures Records(now, key, text, limit)
  {
  }

  /** The message, in the room the identity leaves. */
  method RecordMessage(u: Utf8, meta: Metadata, message: Bytes) returns (now: Metadata)
    requires CountsRunes(u) && MESSAGE !in meta && Size(meta) <= 1119
    ensures now.Keys <= meta.Keys + {MESSAGE} && forall k | k in meta :: k in now && now[k] == meta[k]
    ensures Size(now) <= LIMIT
    ensures Records(now, MESSAGE, message, MESSAGE_ROOM)
    ensures message != [] && Size(meta) + |MESSAGE| + |EncodeValue(message)| <= LIMIT ==>
              now == meta[MESSAGE := EncodeValue(message)]
  {
    hide EncodeValue, DecodeValue, WholeOrCut, Printable, Size, Ascii;
    KeysDiffer();
    if message == [] {
      return meta;
    }
    var encoded, _, _ := FitMessage(u, message, LIMIT - Size(meta) - |MESSAGE|);
    StoredShape(message);
    StoredNotEmpty(encoded, message);
    SizeWith(meta, MESSAGE, encoded);
    return meta[MESSAGE := encoded];
  }

  lemma {:induction false} StoredNotEmpty(stored: Bytes, message: Bytes)
    requires message != [] && WholeOrCut(DecodeValue(stored), message)
    ensures stored != []
  {
  }
}

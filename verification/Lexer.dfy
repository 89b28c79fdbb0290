/**
 The lexer of the access configuration files: one token at a time from a character stream,
 with one slot for a token that has been pushed back.
 */
module Lexer {
  import opened Text

  datatype LexItem =
    | LexNone | LexEof | LexRecSep | LexFieldSep | LexItemSep | LexOpenParen | LexCloseParen
    | LexAtSign | LexCloseBrace | LexAlphStr | LexTmplStr

  /** White space that is ignored in front of a token. */
  predicate IsBlank(c: char) { c == ' ' || c == '\t' || c == CR }

  function Punctuation(c: char): LexItem {
    if c == LF then LexRecSep
    else if c == ':' then LexFieldSep
    else if c == ',' then LexItemSep
    else if c == '(' then LexOpenParen
    else if c == ')' then LexCloseParen
    else if c == '@' then LexAtSign
    else if c == '}' then LexCloseBrace
    else LexNone
  }

  predicate IsDelimiter(c: char) { IsBlank(c) || Punctuation(c) != LexNone }

  /** What is still to be read, the last string read, and the token pushed back. */
  datatype LexState = LexState(input: string, buffer: string, pushed: LexItem)

  function SkipBlanks(s: string): (t: string)
    ensures |t| <= |s| && (t != "" ==> !IsBlank(t[0]))
  {
    if s != "" && IsBlank(s[0]) then SkipBlanks(s[1..]) else s
  }

  /** The length of the string a text begins with. */
  function WordLength(s: string): (n: nat)
    ensures n <= |s| && (forall i :: 0 <= i < n ==> !IsDelimiter(s[i]))
    ensures n < |s| ==> IsDelimiter(s[n])
  {
    if s == "" || IsDelimiter(s[0]) then 0 else 1 + WordLength(s[1..])
  }

  function WordItem(word: string): LexItem { if '*' in word then LexTmplStr else LexAlphStr }

  predicate IsReal(item: LexItem) { item != LexNone && item != LexEof }

  /** What there is to read, counting a token that has been pushed back. */
  function Weight(s: LexState): nat { |s.input| + if IsReal(s.pushed) then 1 else 0 }

  /** The next token. */
  function ReadItem(s: LexState): (r: (LexItem, LexState))
    ensures r.0 != LexNone && r.1.pushed == LexNone
    ensures Weight(r.1) <= Weight(s) - if IsReal(r.0) then 1 else 0
    ensures |r.1.input| <= |s.input|
  {
    if s.pushed != LexNone then (s.pushed, s.(pushed := LexNone))
    else
      var t := SkipBlanks(s.input);
      var n := WordLength(t);
      if t == "" then (LexEof, s.(input := ""))
      else if n == 0 then (Punctuation(t[0]), s.(input := t[1..]))
      else (WordItem(t[..n]), s.(input := t[n..], buffer := t[..n]))
  }

  /** Push a token back; the slot has to be free. */
  function PutBack(s: LexState, item: LexItem): (r: LexState)
    requires s.pushed == LexNone
    ensures Weight(r) == Weight(s) + if IsReal(item) then 1 else 0
  {
    s.(pushed := item)
  }

  /** The text behind the first line end. */
  function SkipLine(s: string): (t: string)
    ensures |t| <= |s|
  {
    if s == "" then "" else if s[0] == LF then s[1..] else SkipLine(s[1..])
  }

  /** After a syntax error the rest of the line is passed over. */
  function PassError(s: LexState): (r: LexState)
    ensures Weight(r) <= Weight(s)
  {
    s.(input := SkipLine(s.input))
  }

  lemma {:induction false} WordGrows(word: string, s: string)
    requires forall i :: 0 <= i < |word| ==> !IsDelimiter(word[i])
    requires s == "" || IsDelimiter(s[0])
    ensures WordLength(word + s) == |word|
  {
    if word == "" {
      assert word + s == s;
    } else {
      assert (word + s)[1..] == word[1..] + s;
      WordGrows(word[1..], s);
    }
  }

  // ---- Tokens in words ----

  /** The characters that end a word. */
  const DELIMITERS := " \t\r\n:,()@}"

  predicate IsWord(word: string) { word != "" && forall c :: c in word ==> c !in DELIMITERS }

  predicate AreBlanks(gap: string) { forall i :: 0 <= i < |gap| ==> gap[i] in [' ', '\t', '\r'] }

  lemma DelimiterIff(c: char)
    ensures IsDelimiter(c) <==> c in DELIMITERS
  {
    var d := DELIMITERS;
    assert d[0] == ' ' && d[1] == '\t' && d[2] == '\r' && d[3] == '\n' && d[4] == ':' && d[5] == ',';
    assert d[6] == '(' && d[7] == ')' && d[8] == '@' && d[9] == '}' && |d| == 10;
  }

  lemma {:induction false} BlanksAreSkipped(gap: string, s: string)
    requires AreBlanks(gap) && (s == "" || !IsBlank(s[0]))
    ensures SkipBlanks(gap + s) == s
  {
    if gap == "" {
      assert gap + s == s;
    } else {
      assert (gap + s)[1..] == gap[1..] + s;
      BlanksAreSkipped(gap[1..], s);
    }
  }

  /** White space is skipped; a word goes up to the next delimiter, and is a template if it has a star. */
  lemma WordIsRead(s: LexState, gap: string, word: string, rest: string)
    requires s.pushed == LexNone && s.input == gap + (word + rest)
    requires AreBlanks(gap) && IsWord(word) && (rest == "" || rest[0] in DELIMITERS)
    ensures ReadItem(s) == (if '*' in word then LexTmplStr else LexAlphStr, LexState(rest, word, LexNone))
  {
    forall i | 0 <= i < |word| ensures !IsDelimiter(word[i]) {
      DelimiterIff(word[i]);
    }
    if rest != "" { DelimiterIff(rest[0]); }
    hide DELIMITERS;
    assert (word + rest)[0] == word[0];
    BlanksAreSkipped(gap, word + rest);
    WordGrows(word, rest);
  }

  /** What each of the other characters stands for. */
  lemma SignIsRead(s: LexState, gap: string, sign: char, rest: string)
    requires s.pushed == LexNone && s.input == gap + ([sign] + rest) && AreBlanks(gap)
    requires sign in "\n:,()@}"
    ensures ReadItem(s) == (
      match sign
        case ':' => LexFieldSep
        case ',' => LexItemSep
        case '(' => LexOpenParen
        case ')' => LexCloseParen
        case '@' => LexAtSign
        case '}' => LexCloseBrace
        case _ => LexRecSep,
      s.(input := rest))
  {
    var d := "\n:,()@}";
    assert sign == '\n' || sign == ':' || sign == ',' || sign == '(' || sign == ')' || sign == '@' || sign == '}';
    BlanksAreSkipped(gap, [sign] + rest);
    assert ([sign] + rest)[1..] == rest && ([sign] + rest)[0] == sign;
    assert WordLength([sign] + rest) == 0;
  }

  lemma EndIsRead(s: LexState)
    requires s.pushed == LexNone && AreBlanks(s.input)
    ensures ReadItem(s) == (LexEof, s.(input := ""))
  {
    BlanksAreSkipped(s.input, "");
    assert s.input + "" == s.input;
  }

  /** After an error the text behind the first line end is read on. */
  lemma {:induction false} LineIsPassedOver(line: string, rest: string)
    requires '\n' !in line
    ensures SkipLine(line + ("\n" + rest)) == rest && SkipLine(line) == ""
  {
    if line == "" {
      assert line + ("\n" + rest) == "\n" + rest;
    } else {
      assert (line + ("\n" + rest))[1..] == line[1..] + ("\n" + rest);
      LineIsPassedOver(line[1..], rest);
    }
  }

  /** The lexer reads character by character and keeps the string in its buffer. */
  class Scanner {
    var input: string               // what the file has still to deliver
    var lexBuffer: string
    var lexPushedBack: LexItem

    constructor (text: string)
      ensures State() == LexState(text, "", LexNone)
    {
      input, lexBuffer, lexPushedBack := text, "", LexNone;
    }

    function State(): LexState
      reads this
    {
      LexState(input, lexBuffer, lexPushedBack)
    }

    method Lex() returns (item: LexItem)
      modifies this
      ensures (item, State()) == ReadItem(old(State()))
    {
      if lexPushedBack != LexNone {
        item := lexPushedBack;
        lexPushedBack := LexNone;
        return;
      }
      var lexCnt, lexTemplate := 0, false;
      while true
        invariant lexPushedBack == LexNone && (lexTemplate <==> lexCnt > 0 && '*' in lexBuffer)
        invariant lexCnt == 0 ==> lexBuffer == old(lexBuffer) && SkipBlanks(input) == SkipBlanks(old(input))
        invariant lexCnt > 0 ==> |lexBuffer| == lexCnt && SkipBlanks(old(input)) == lexBuffer + input
        invariant lexCnt > 0 ==> forall i :: 0 <= i < lexCnt ==> !IsDelimiter(lexBuffer[i])
        decreases |input|
      {
        if input == "" || IsDelimiter(input[0]) {
          if lexCnt > 0 {
            WordGrows(lexBuffer, input);
            return if lexTemplate then LexTmplStr else LexAlphStr;
          }
          if input == "" {
            return LexEof;
          }
          var ch := input[0];
          input := input[1..];
          if Punctuation(ch) != LexNone {
            return Punctuation(ch);
          }
        } else {
          var ch := input[0];
          assert lexCnt > 0 ==> lexBuffer + input == (lexBuffer + [ch]) + input[1..];
          assert lexCnt == 0 ==> input == [ch] + input[1..];
          input := input[1..];
          lexBuffer := (if lexCnt == 0 then "" else lexBuffer) + [ch];
          lexCnt := lexCnt + 1;
          if ch == '*' {
            lexTemplate := true;
          }
        }
      }
    }

    /** The one slot must not be overwritten while a token is in it. */
    method Unlex(item: LexItem)
      requires lexPushedBack == LexNone
      modifies `lexPushedBack
      ensures State() == PutBack(old(State()), item)
    {
      lexPushedBack := item;
    }

    method SyntaxError()
      modifies `input
      ensures State() == PassError(old(State()))
    {
      while input != "" && input[0] != LF
        invariant SkipLine(input) == SkipLine(old(input))
        decreases |input|
      {
        input := input[1..];
      }
      if input != "" {
        input := input[1..];
      }
    }
  }
}

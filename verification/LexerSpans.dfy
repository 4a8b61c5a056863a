/** How far the scanners of tools/ jump at once, and why a jump agrees with reading one character at a time. */
module LexerSpans {
  import opened CLexer

  // str.find for a pair of characters and for one; -1 when there is none from here on.
  function FindPair(text: string, first: char, second: char, from: nat): (at: int)
    ensures at >= 0 ==> from <= at && Pair(text, at, first, second)
    ensures at < 0 ==> at == -1
    ensures forall k: nat :: from <= k && (k < at || at < 0) ==> !Pair(text, k, first, second)
    decreases |text| - from
  {
    if from >= |text| then -1 else if Pair(text, from, first, second) then from else FindPair(text, first, second, from + 1)
  }

  function Find(text: string, c: char, from: nat): (at: int)
    ensures at >= 0 ==> from <= at < |text| && text[at] == c
    ensures at < 0 ==> at == -1
    ensures forall k: nat :: from <= k < |text| && (k < at || at < 0) ==> text[k] != c
    decreases |text| - from
  {
    if from >= |text| then -1 else if text[from] == c then from else Find(text, c, from + 1)
  }

  function Blanked(s: string): string
  {
    seq(|s|, k requires 0 <= k < |s| => Blank(s[k]))
  }

  function OnlyNewlines(s: string): string
  {
    if s == "" then "" else OnlyNewlines(s[..|s| - 1]) + (if s[|s| - 1] == '\n' then "\n" else "")
  }

  // The scanner is between constructs; a newline that ends a line comment or a literal counts as code to it.
  predicate Between(lx: Lexer, text: string, i: nat)
    requires i < |text|
  {
    var mode := ModeAt(lx, text, i);
    mode == Code || (text[i] == '\n' && (mode == Line || (mode.Literal? && lx == DropLiterals)))
  }

  predicate InLiteral(lx: Lexer, text: string, i: nat)
    requires i <= |text|
  {
    ModeAt(lx, text, i).Literal? || ModeAt(lx, text, i).Escaped?
  }

  lemma AtStart(lx: Lexer, text: string)
    ensures Output(lx, text, 0) == "" && (|text| > 0 ==> Between(lx, text, 0))
  {
  }

  lemma BetweenIsCode(lx: Lexer, text: string, i: nat)
    requires i < |text| && Between(lx, text, i) && text[i] != '\n'
    ensures ModeAt(lx, text, i) == Code
  {
  }

  lemma CodeIsBetween(lx: Lexer, text: string, i: nat)
    requires i < |text| ==> ModeAt(lx, text, i) == Code
    ensures i < |text| ==> Between(lx, text, i)
  {
  }

  lemma AllBlank(s: string)
    requires forall k :: 0 <= k < |s| ==> s[k] != '\n'
    ensures Blanked(s) == seq(|s|, _ => ' ')
  {
  }

  lemma PlainStep(lx: Lexer, text: string, i: nat)
    requires i < |text| && Between(lx, text, i) && !OpensComment(text, i) && !IsQuote(text[i])
    ensures Output(lx, text, i + 1) == Output(lx, text, i) + [text[i]]
    ensures ModeAt(lx, text, i + 1) == Code
  {
  }

  lemma {:induction false} BlockRun(lx: Lexer, text: string, a: nat, k: nat)
    requires a <= k <= |text| && ModeAt(lx, text, a) == Block
    requires forall p :: a <= p < k ==> !Pair(text, p, '*', '/')
    ensures ModeAt(lx, text, k) == Block
    decreases k
  {
    hide Pair;
    if a < k {
      BlockRun(lx, text, a, k - 1);
    }
  }

  // From the opening of a block comment to the first closing after it, or to the end of the text.
  lemma BlockSpan(lx: Lexer, text: string, i: nat, j: nat)
    requires i < |text| && ModeAt(lx, text, i) == Code && OpensBlock(text, i)
    requires var at := FindPair(text, '*', '/', i + 2); j == if at < 0 then |text| else at + 2
    ensures i + 2 <= j <= |text|
    ensures forall k :: i <= k < j ==> InComment(lx, text, k)
    ensures j < |text| ==> ModeAt(lx, text, j) == Code
  {
    var at := FindPair(text, '*', '/', i + 2);
    assert ModeAt(lx, text, i + 1) == BlockOpen;
    assert ModeAt(lx, text, i + 2) == Block;
    var last := if at < 0 then |text| else at;
    forall k | i + 2 <= k <= last
      ensures ModeAt(lx, text, k) == Block
    {
      BlockRun(lx, text, i + 2, k);
    }
    if at >= 0 {
      assert ModeAt(lx, text, at + 1) == BlockClose;
      assert ModeAt(lx, text, at + 2) == Code;
    }
  }

  lemma {:induction false} LineRun(lx: Lexer, text: string, a: nat, k: nat)
    requires a <= k <= |text| && ModeAt(lx, text, a) == Line
    requires forall p :: a <= p < k ==> text[p] != '\n'
    ensures ModeAt(lx, text, k) == Line
    decreases k
  {
    if a < k {
      LineRun(lx, text, a, k - 1);
    }
  }

  // From the opening of a line comment up to its newline.
  lemma LineSpan(lx: Lexer, text: string, i: nat, j: nat)
    requires i < |text| && ModeAt(lx, text, i) == Code && OpensLine(text, i)
    requires var at := Find(text, '\n', i); j == if at < 0 then |text| else at
    ensures i < j <= |text|
    ensures forall k :: i <= k < j ==> InComment(lx, text, k) && text[k] != '\n'
    ensures j < |text| ==> Between(lx, text, j)
  {
    assert ModeAt(lx, text, i + 1) == Line;
    forall k | i < k <= j
      ensures ModeAt(lx, text, k) == Line
    {
      LineRun(lx, text, i + 1, k);
    }
  }

  lemma OutputMore(lx: Lexer, text: string, i: nat)
    requires i < |text|
    ensures Output(lx, text, i + 1) == Output(lx, text, i) + Emit(lx, text, i)
  {
    hide Emit;
  }

  lemma BlankedMore(s: string, c: char)
    ensures Blanked(s + [c]) == Blanked(s) + [Blank(c)]
  {
  }

  lemma OnlyNewlinesMore(s: string, c: char)
    ensures OnlyNewlines(s + [c]) == OnlyNewlines(s) + (if c == '\n' then "\n" else "")
  {
    assert (s + [c])[..|s + [c]| - 1] == s;
  }

  lemma {:induction false} BlankedSpan(lx: Lexer, text: string, i: nat, j: nat)
    requires i <= j <= |text| && forall k :: i <= k < j ==> InComment(lx, text, k)
    ensures Output(lx, text, j) == Output(lx, text, i) + Blanked(text[i..j])
    decreases j
  {
    hide Output, Blanked, ModeAt, InComment;
    if i < j {
      BlankedSpan(lx, text, i, j - 1);
      OutputMore(lx, text, j - 1);
      BlankedMore(text[i..j - 1], text[j - 1]);
      assert text[i..j - 1] + [text[j - 1]] == text[i..j];
    } else {
      NothingBlanked();
      assert text[i..j] == "";
    }
  }

  lemma NothingBlanked()
    ensures Blanked("") == "" && OnlyNewlines("") == ""
  {
  }

  lemma KeptOne(text: string, i: nat)
    requires i < |text|
    requires InLiteral(KeepLiterals, text, i) || (ModeAt(KeepLiterals, text, i) == Code && IsQuote(text[i]))
    ensures Emit(KeepLiterals, text, i) == [text[i]]
  {
    hide ModeAt;
  }

  lemma {:induction false} KeptSpan(text: string, i: nat, j: nat)
    requires i < j <= |text| && ModeAt(KeepLiterals, text, i) == Code && IsQuote(text[i])
    requires forall k :: i < k < j ==> InLiteral(KeepLiterals, text, k)
    ensures Output(KeepLiterals, text, j) == Output(KeepLiterals, text, i) + text[i..j]
    decreases j
  {
    hide ModeAt, Emit, Output, InLiteral;
    OutputMore(KeepLiterals, text, j - 1);
    KeptOne(text, j - 1);
    assert text[i..j - 1] + [text[j - 1]] == text[i..j];
    if i < j - 1 {
      KeptSpan(text, i, j - 1);
    } else {
      assert text[i..j - 1] == "";
    }
  }

  lemma DroppedOne(text: string, i: nat)
    requires i < |text|
    ensures InLiteral(DropLiterals, text, i) ==> Emit(DropLiterals, text, i) == if text[i] == '\n' then "\n" else ""
    ensures ModeAt(DropLiterals, text, i) == Code && IsQuote(text[i]) ==> Emit(DropLiterals, text, i) == [text[i], text[i]]
  {
    hide ModeAt;
  }

  lemma {:induction false} DroppedSpan(text: string, i: nat, j: nat)
    requires i < j <= |text| && ModeAt(DropLiterals, text, i) == Code && IsQuote(text[i])
    requires forall k :: i < k < j ==> InLiteral(DropLiterals, text, k)
    ensures Output(DropLiterals, text, j) == Output(DropLiterals, text, i) + [text[i], text[i]] + OnlyNewlines(text[i..j])
    decreases j
  {
    hide ModeAt, Emit, Output, OnlyNewlines, InLiteral;
    OutputMore(DropLiterals, text, j - 1);
    DroppedOne(text, j - 1);
    OnlyNewlinesMore(text[i..j - 1], text[j - 1]);
    assert text[i..j - 1] + [text[j - 1]] == text[i..j];
    if i < j - 1 {
      DroppedSpan(text, i, j - 1);
    } else {
      NothingBlanked();
      assert text[i..j - 1] == "";
    }
  }

  // -------------------------------------------------------------------------
  // Texts that are one construct from end to end
  // -------------------------------------------------------------------------

  lemma {:induction false} LiteralRun(lx: Lexer, text: string, k: nat)
    requires 1 <= k <= |text| && ModeAt(lx, text, 1) == Literal(text[0])
    requires forall p :: 1 <= p < k ==> text[p] != '\\' && text[p] != text[0] && text[p] != '\n'
    ensures ModeAt(lx, text, k) == Literal(text[0])
  {
    if k > 1 {
      LiteralRun(lx, text, k - 1);
    }
  }

  lemma {:induction false} NoNewlines(s: string)
    requires forall k :: 0 <= k < |s| ==> s[k] != '\n'
    ensures OnlyNewlines(s) == ""
  {
    if s != "" {
      NoNewlines(s[..|s| - 1]);
    }
  }

  // A closed literal, in double or single quotes: two quotes are left of it, or all of it.
  lemma WholeLiteral(quote: char, body: string)
    requires quote == '"' || quote == '\''
    requires forall k :: 0 <= k < |body| ==> body[k] != quote && body[k] != '\\' && body[k] != '\n'
    ensures Stripped(DropLiterals, [quote] + body + [quote]) == [quote, quote]
    ensures Stripped(KeepLiterals, [quote] + body + [quote]) == [quote] + body + [quote]
  {
    var text := [quote] + body + [quote];
    assert text[0] == quote && forall p :: 1 <= p <= |body| ==> text[p] == body[p - 1];
    LiteralInside(DropLiterals, text);
    LiteralInside(KeepLiterals, text);
    hide ModeAt, InLiteral, Output, OnlyNewlines;
    NoNewlines(text);
    NothingOut(DropLiterals, text);
    NothingOut(KeepLiterals, text);
    DroppedSpan(text, 0, |text|);
    KeptSpan(text, 0, |text|);
    assert text[0..|text|] == text;
  }

  lemma NothingOut(lx: Lexer, text: string)
    ensures Output(lx, text, 0) == ""
  {
  }

  lemma LiteralInside(lx: Lexer, text: string)
    requires |text| >= 2 && (text[0] == '"' || text[0] == '\'')
    requires forall p :: 1 <= p < |text| - 1 ==> text[p] != '\\' && text[p] != text[0] && text[p] != '\n'
    ensures ModeAt(lx, text, 0) == Code && IsQuote(text[0])
    ensures forall k :: 0 < k < |text| ==> InLiteral(lx, text, k)
  {
    assert ModeAt(lx, text, 1) == Literal(text[0]);
    forall k | 0 < k < |text|
      ensures InLiteral(lx, text, k)
    {
      LiteralRun(lx, text, k);
    }
  }

  // A block comment: a space for every character but the newlines, which stay.
  lemma WholeBlockComment(lx: Lexer, body: string)
    requires forall k :: 0 <= k < |body| ==> body[k] != '*'
    ensures var text := "/*" + body + "*/";
            && |Stripped(lx, text)| == |text|
            && forall i :: 0 <= i < |text| ==> Stripped(lx, text)[i] == if text[i] == '\n' then '\n' else ' '
  {
    var text, n := "/*" + body + "*/", |body|;
    assert forall p :: 2 <= p < n + 2 ==> text[p] == body[p - 2];
    assert text[0] == '/' && text[1] == '*' && text[n + 2] == '*' && text[n + 3] == '/';
    assert ModeAt(lx, text, 0) == Code && OpensBlock(text, 0) && Pair(text, n + 2, '*', '/');
    var at := FindPair(text, '*', '/', 2);
    assert at == n + 2;
    hide Output, InComment, ModeAt;
    BlockSpan(lx, text, 0, n + 4);
    BlankedSpan(lx, text, 0, n + 4);
    NothingOut(lx, text);
    assert text[0..n + 4] == text;
  }

  // A line comment: spaces.
  lemma WholeLineComment(lx: Lexer, body: string)
    requires forall k :: 0 <= k < |body| ==> body[k] != '\n'
    ensures Stripped(lx, "//" + body) == seq(|body| + 2, _ => ' ')
  {
    var text := "//" + body;
    assert forall p :: 2 <= p < |text| ==> text[p] == body[p - 2];
    assert text[0] == '/' && text[1] == '/';
    assert ModeAt(lx, text, 0) == Code && OpensLine(text, 0);
    var at := Find(text, '\n', 0);
    assert at == -1;
    hide Output, InComment, ModeAt, Blanked;
    LineSpan(lx, text, 0, |text|);
    BlankedSpan(lx, text, 0, |text|);
    AllBlank(text);
    NothingOut(lx, text);
    assert text[0..|text|] == text;
  }

  // A text without slashes and quotes is code, and stays as it is.
  lemma {:induction false} PlainStays(lx: Lexer, text: string, i: nat)
    requires i <= |text| && forall k :: 0 <= k < |text| ==> text[k] != '/' && text[k] != '"' && text[k] != '\''
    ensures ModeAt(lx, text, i) == Code && Output(lx, text, i) == text[..i]
  {
    if i > 0 {
      PlainStays(lx, text, i - 1);
      PlainStep(lx, text, i - 1);
    }
  }
}

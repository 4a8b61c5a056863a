/** strip_noise of tools/header_consumers.py. */
module HeaderConsumers {
  import opened CLexer
  import opened LexerSpans

  method StripNoise(text: string) returns (out: string)
    ensures out == Stripped(DropLiterals, text)
  {
    hide Output, Between, ModeAt, InComment, InLiteral, Blanked, OnlyNewlines;
    ghost var lx := DropLiterals;
    out := "";
    var i, n := 0, |text|;
    AtStart(lx, text);
    while i < n
      invariant i <= n + 1 && (i < n ==> Between(lx, text, i))
      invariant out == Output(lx, text, if i < n then i else n)
      decreases n - i
    {
      var c := text[i];
      if c == '/' && i + 1 < n && text[i + 1] == '*' {
        BetweenIsCode(lx, text, i);
        var j := FindPair(text, '*', '/', i + 2);
        j := if j < 0 then n else j + 2;
        BlockSpan(lx, text, i, j);
        BlankedSpan(lx, text, i, j);
        out := out + Blanked(text[i..j]);
        i := j;
        CodeIsBetween(lx, text, i);
      } else if c == '/' && i + 1 < n && text[i + 1] == '/' {
        BetweenIsCode(lx, text, i);
        var j := Find(text, '\n', i);
        j := if j < 0 then n else j;
        LineSpan(lx, text, i, j);
        BlankedSpan(lx, text, i, j);
        AllBlank(text[i..j]);
        out := out + seq(j - i, _ => ' ');
        i := j;
      } else if c == '"' || c == '\'' {
        BetweenIsCode(lx, text, i);
        var j := ScanLiteral(text, i);
        ghost var end := if j < n then j else n;
        DroppedSpan(text, i, end);
        out := out + (if c == '"' then "\"\"" else "''");
        out := out + OnlyNewlines(text[i..if j < n then j else n]);
        i := j;
      } else {
        PlainStep(lx, text, i);
        out := out + [c];
        i := i + 1;
        CodeIsBetween(lx, text, i);
      }
    }
  }

  // The loop over a literal: past its closing quote, or at the newline or the end of the text that cuts it short.
  method ScanLiteral(text: string, i: nat) returns (j: nat)
    requires i < |text| && ModeAt(DropLiterals, text, i) == Code && IsQuote(text[i])
    ensures i < j <= |text| + 1
    ensures forall k :: i < k < j && k < |text| ==> InLiteral(DropLiterals, text, k)
    ensures j < |text| ==> Between(DropLiterals, text, j)
  {
    var quote, n := text[i], |text|;
    j := i + 1;
    assert ModeAt(DropLiterals, text, j) == Literal(quote);
    while j < n
      invariant i < j <= n + 1
      invariant j <= n ==> ModeAt(DropLiterals, text, j) == Literal(quote)
      invariant forall k :: i < k < j && k < n ==> InLiteral(DropLiterals, text, k)
      decreases n - j
    {
      if text[j] == '\\' {
        assert ModeAt(DropLiterals, text, j + 1) == Escaped(quote);
        assert j + 2 <= n ==> ModeAt(DropLiterals, text, j + 2) == Literal(quote);
        j := j + 2;
        continue;
      }
      if text[j] == quote || text[j] == '\n' {
        break;
      }
      j := j + 1;
    }
    if j < n && text[j] == quote {
      j := j + 1;
    }
  }
}

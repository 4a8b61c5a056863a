/** _strip_comments and _body_of of tools/check_return_types.py. */
module ReturnTypes {
  import opened CLexer
  import opened LexerSpans

  method StripComments(text: string) returns (out: string)
    ensures out == Stripped(KeepLiterals, text)
  {
    hide Output, Between, ModeAt, InComment, InLiteral, Blanked;
    ghost var lx := KeepLiterals;
    out := "";
    var i, n := 0, |text|;
    AtStart(lx, text);
    while i < n
      invariant i <= n && (i < n ==> Between(lx, text, i))
      invariant out == Output(lx, text, i)
      decreases n - i
    {
      var two := text[i..if i + 2 <= n then i + 2 else n];
      if two == "/*" {
        assert OpensBlock(text, i);
        BetweenIsCode(lx, text, i);
        var j := FindPair(text, '*', '/', i + 2);
        j := if j < 0 then n else j + 2;
        BlockSpan(lx, text, i, j);
        BlankedSpan(lx, text, i, j);
        out := out + Blanked(text[i..j]);
        i := j;
        CodeIsBetween(lx, text, i);
      } else if two == "//" {
        assert OpensLine(text, i);
        BetweenIsCode(lx, text, i);
        var j := Find(text, '\n', i);
        j := if j < 0 then n else j;
        LineSpan(lx, text, i, j);
        BlankedSpan(lx, text, i, j);
        AllBlank(text[i..j]);
        out := out + seq(j - i, _ => ' ');
        i := j;
      } else if text[i] == '"' || text[i] == '\'' {
        BetweenIsCode(lx, text, i);
        var j := ScanLiteral(text, i);
        KeptSpan(text, i, j);
        out := out + text[i..j];
        i := j;
      } else {
        NoCommentHere(text, i, two);
        PlainStep(lx, text, i);
        out := out + [text[i]];
        i := i + 1;
        CodeIsBetween(lx, text, i);
      }
    }
  }

  // The loop over a literal: past its closing quote, or at the end of the text.
  method ScanLiteral(text: string, i: nat) returns (j: nat)
    requires i < |text| && ModeAt(KeepLiterals, text, i) == Code && IsQuote(text[i])
    ensures i < j <= |text|
    ensures forall k :: i < k < j ==> InLiteral(KeepLiterals, text, k)
    ensures j < |text| ==> Between(KeepLiterals, text, j)
  {
    var quote, n := text[i], |text|;
    j := i + 1;
    assert ModeAt(KeepLiterals, text, j) == Literal(quote);
    while j < n && text[j] != quote
      invariant i < j <= n + 1
      invariant j <= n ==> ModeAt(KeepLiterals, text, j) == Literal(quote)
      invariant forall k :: i < k < j && k < n ==> InLiteral(KeepLiterals, text, k)
      decreases n - j
    {
      if text[j] == '\\' {
        assert ModeAt(KeepLiterals, text, j + 1) == Escaped(quote);
        assert j + 2 <= n ==> ModeAt(KeepLiterals, text, j + 2) == Literal(quote);
      }
      j := j + if text[j] == '\\' then 2 else 1;
    }
    if j < n {
      assert ModeAt(KeepLiterals, text, j + 1) == Code;
    }
    j := if j + 1 < n then j + 1 else n;
  }

  lemma NoCommentHere(text: string, i: nat, two: string)
    requires i < |text| && two == text[i..if i + 2 <= |text| then i + 2 else |text|]
    requires two != "/*" && two != "//"
    ensures !OpensComment(text, i)
  {
    if i + 1 < |text| {
      assert two == [text[i], text[i + 1]];
    }
  }

  // Reading text without comments: what the next character is part of, and how many braces are open.
  datatype Scan = Scan(mode: Mode, depth: int)

  function ScanStep(s: Scan, c: char): Scan
  {
    match s.mode
    case Literal(q) => s.(mode := if c == '\\' then Escaped(q) else if c == q then Code else Literal(q))
    case Escaped(q) => s.(mode := Literal(q))
    case _ =>
      if IsQuote(c) then s.(mode := Literal(c))
      else if c == '{' then s.(depth := s.depth + 1)
      else if c == '}' then s.(depth := s.depth - 1)
      else s
  }

  function Scanned(s: string): Scan
  {
    if s == "" then Scan(Code, 0) else ScanStep(Scanned(s[..|s| - 1]), s[|s| - 1])
  }

  // The brace at k closes the one at open: reading from open, it is in code and brings the depth back to 0.
  predicate Closes(text: string, open: nat, k: nat)
    requires open <= k < |text|
  {
    text[k] == '}' && Scanned(text[open..k]) == Scan(Code, 1)
  }

  predicate FirstCloses(text: string, open: nat, k: nat)
    requires open <= k < |text|
  {
    Closes(text, open, k) && forall e :: open <= e < k ==> !Closes(text, open, e)
  }

  // A block's inside: its braces match, and it ends in code.
  predicate Nested(s: string)
  {
    Scanned(s) == Scan(Code, 0) && forall p :: 0 <= p <= |s| ==> Scanned(s[..p]).depth >= 0
  }

  // Returns the text between the brace at open and the one that closes it, "" when none does, and where it starts.
  method BodyOf(text: string, open: nat) returns (body: string, start: nat, ghost close: int)
    ensures start == open + 1
    ensures close >= 0 ==> open < close < |text| && FirstCloses(text, open, close) && body == text[open + 1..close]
    ensures close < 0 ==> body == "" && forall k :: open <= k < |text| ==> !Closes(text, open, k)
  {
    hide Scanned;
    var depth, i, n := 0, open, |text|;
    ScannedNothing(text, open);
    while i < n
      invariant open <= i
      invariant i <= n ==> Scanned(text[open..i]) == Scan(Code, depth)
      invariant forall k :: open <= k < i && k < n ==> !Closes(text, open, k)
      decreases n - i
    {
      var c := text[i];
      ScannedMore(text, open, i);
      if c == '"' || c == '\'' {
        var quote := c;
        i := i + 1;
        while i < n && text[i] != quote
          invariant open < i <= n + 1
          invariant i <= n ==> Scanned(text[open..i]) == Scan(Literal(quote), depth)
          invariant forall k :: open <= k < i && k < n ==> !Closes(text, open, k)
          decreases n - i
        {
          ScannedMore(text, open, i);
          if text[i] == '\\' && i + 1 < n {
            ScannedMore(text, open, i + 1);
          }
          i := i + if text[i] == '\\' then 2 else 1;
        }
        if i < n {
          ScannedMore(text, open, i);
        }
      } else if c == '{' {
        depth := depth + 1;
      } else if c == '}' {
        depth := depth - 1;
        if depth == 0 {
          ScannedNothing(text, open);
          return text[open + 1..i], open + 1, i;
        }
      }
      i := i + 1;
    }
    return "", open + 1, -1;
  }

  lemma ScannedNothing(text: string, open: nat)
    ensures open <= |text| ==> Scanned(text[open..open]) == Scan(Code, 0)
  {
  }

  lemma ScannedMore(text: string, open: nat, i: nat)
    requires open <= i < |text|
    ensures Scanned(text[open..i + 1]) == ScanStep(Scanned(text[open..i]), text[i])
  {
    assert text[open..i + 1][..i - open] == text[open..i];
  }

  // Behind an opening brace everything is one deeper.
  lemma {:induction false} OneDeeper(s: string)
    requires |s| > 0 && s[0] == '{'
    ensures Scanned(s) == Scanned(s[1..]).(depth := Scanned(s[1..]).depth + 1)
  {
    if |s| > 1 {
      assert s[1..][..|s[1..]| - 1] == s[..|s| - 1][1..];
      OneDeeper(s[..|s| - 1]);
    } else {
      assert s[..0] == "" && s[1..] == "";
    }
  }

  // Before the first closing brace the depth never falls to 0.
  lemma {:induction false} DeepBeforeClose(text: string, open: nat, k: nat, i: nat)
    requires open < i <= k < |text| && text[open] == '{' && forall e :: open <= e < k ==> !Closes(text, open, e)
    ensures Scanned(text[open..i]).depth >= 1
    decreases i
  {
    hide Scanned;
    ScannedMore(text, open, i - 1);
    if i > open + 1 {
      DeepBeforeClose(text, open, k, i - 1);
      assert !Closes(text, open, i - 1);
      DepthFallsInCode(Scanned(text[open..i - 1]), text[i - 1]);
      NeverInComment(text[open..i - 1]);
    } else {
      ScannedNothing(text, open);
    }
  }

  lemma DepthFallsInCode(s: Scan, c: char)
    ensures ScanStep(s, c).depth >= s.depth - 1
    ensures ScanStep(s, c).depth < s.depth ==> c == '}' && !s.mode.Literal? && !s.mode.Escaped?
  {
  }

  lemma {:induction false} NeverInComment(s: string)
    ensures Scanned(s).mode.Code? || Scanned(s).mode.Literal? || Scanned(s).mode.Escaped?
  {
    if s != "" {
      NeverInComment(s[..|s| - 1]);
    }
  }

  // The body of a block is the one text between its braces in which braces match, literals aside.
  lemma BodyIsNestedIff(text: string, open: nat, k: nat)
    requires open < k < |text| && text[open] == '{' && text[k] == '}'
    ensures FirstCloses(text, open, k) <==> Nested(text[open + 1..k])
  {
    hide Scanned;
    var body := text[open + 1..k];
    forall p | 0 <= p <= |body|
      ensures Scanned(text[open..open + 1 + p]) == Scanned(body[..p]).(depth := Scanned(body[..p]).depth + 1)
    {
      OneDeeper(text[open..open + 1 + p]);
      assert text[open..open + 1 + p][1..] == body[..p];
    }
    assert body[..|body|] == body;
    if FirstCloses(text, open, k) {
      forall p | 0 <= p <= |body|
        ensures Scanned(body[..p]).depth >= 0
      {
        DeepBeforeClose(text, open, k, open + 1 + p);
      }
    }
    if Nested(body) {
      forall e | open <= e < k
        ensures !Closes(text, open, e)
      {
        if e == open {
          ScannedNothing(text, open);
        } else {
          var p := e - open - 1;
          ScannedMore(text, open, e);
          assert Scanned(body[..p + 1]).depth >= 0;
          assert Scanned(text[open..open + 1 + (p + 1)]).depth >= 1;
        }
      }
    }
  }

  // How deep the source itself is nested at a place, counting only the braces in code.
  function CodeDepth(text: string, open: nat, i: nat): int
    requires open <= i <= |text|
  {
    if i == open then 0
    else
      CodeDepth(text, open, i - 1) +
      if ModeAt(KeepLiterals, text, i - 1) != Code then 0
      else if text[i - 1] == '{' then 1
      else if text[i - 1] == '}' then -1
      else 0
  }

  // On text whose comments were stripped, the scan from a place in code goes by the braces of the source's code.
  lemma {:induction false} ScanFollowsSource(text: string, open: nat, i: nat)
    requires open <= i <= |text| && ModeAt(KeepLiterals, text, open) == Code
    ensures |Stripped(KeepLiterals, text)| == |text|
    ensures Scanned(Stripped(KeepLiterals, text)[open..i]) == Scan(Quiet(ModeAt(KeepLiterals, text, i)), CodeDepth(text, open, i))
  {
    hide Stripped, Scanned;
    KeptInPlaceAll(text);
    var once := Stripped(KeepLiterals, text);
    if i == open {
      ScannedNothing(once, open);
    } else {
      ScanFollowsSource(text, open, i - 1);
      ScannedMore(once, open, i - 1);
      StrippedAt(text, i - 1);
      SourceStep(text, i - 1, once[i - 1], CodeDepth(text, open, i - 1));
    }
  }

  lemma SourceStep(text: string, i: nat, c: char, depth: int)
    requires i < |text| && c == if InComment(KeepLiterals, text, i) then Blank(text[i]) else text[i]
    ensures ScanStep(Scan(Quiet(ModeAt(KeepLiterals, text, i)), depth), c)
         == Scan(Quiet(ModeAt(KeepLiterals, text, i + 1)),
                 depth + if ModeAt(KeepLiterals, text, i) != Code then 0
                         else if text[i] == '{' then 1 else if text[i] == '}' then -1 else 0)
  {
  }
}

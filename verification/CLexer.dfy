/** What the two comment strippers of tools/ are meant to do, as an automaton that reads one character and looks at
    the one after it: strip_noise of tools/header_consumers.py drops the text of literals, whose line ends them, and
    _strip_comments of tools/check_return_types.py keeps literals, which may span lines. */
module CLexer {

  datatype Lexer = DropLiterals | KeepLiterals

  // What the next character is part of.
  datatype Mode = Code | BlockOpen | Block | BlockClose | Line | Literal(quote: char) | Escaped(quote: char)

  predicate Pair(text: string, i: nat, first: char, second: char)
  {
    i + 1 < |text| && text[i] == first && text[i + 1] == second
  }

  predicate IsQuote(c: char) { c == '"' || c == '\'' }

  predicate OpensBlock(text: string, i: nat) { Pair(text, i, '/', '*') }
  predicate OpensLine(text: string, i: nat) { Pair(text, i, '/', '/') }
  predicate OpensComment(text: string, i: nat) { OpensBlock(text, i) || OpensLine(text, i) }

  function Step(lx: Lexer, text: string, i: nat, mode: Mode): Mode
    requires i < |text|
  {
    match mode
    case Code =>
      if OpensBlock(text, i) then BlockOpen
      else if OpensLine(text, i) then Line
      else if IsQuote(text[i]) then Literal(text[i])
      else Code
    case BlockOpen => Block
    case Block => if Pair(text, i, '*', '/') then BlockClose else Block
    case BlockClose => Code
    case Line => if text[i] == '\n' then Code else Line
    case Literal(q) =>
      if text[i] == '\\' then Escaped(q)
      else if text[i] == q || (text[i] == '\n' && lx == DropLiterals) then Code
      else Literal(q)
    case Escaped(q) => Literal(q)
  }

  // What character i is part of, when the whole text is read from its start.
  function ModeAt(lx: Lexer, text: string, i: nat): Mode
    requires i <= |text|
  {
    if i == 0 then Code else Step(lx, text, i - 1, ModeAt(lx, text, i - 1))
  }

  function Blank(c: char): char { if c == '\n' then '\n' else ' ' }

  // Part of a comment, its delimiters included; the newline that ends a line comment comes out the same either way.
  predicate InComment(lx: Lexer, text: string, i: nat)
    requires i < |text|
  {
    var mode := ModeAt(lx, text, i);
    mode in {BlockOpen, Block, BlockClose, Line} || (mode == Code && OpensComment(text, i))
  }

  // What character i turns into.
  function Emit(lx: Lexer, text: string, i: nat): string
    requires i < |text|
  {
    var c, mode := text[i], ModeAt(lx, text, i);
    if InComment(lx, text, i) then [Blank(c)]
    else if lx == KeepLiterals then [c]
    else if mode == Code then (if IsQuote(c) then [c, c] else [c])
    else if c == '\n' then "\n"
    else ""
  }

  function Output(lx: Lexer, text: string, i: nat): string
    requires i <= |text|
  {
    if i == 0 then "" else Output(lx, text, i - 1) + Emit(lx, text, i - 1)
  }

  function Stripped(lx: Lexer, text: string): string
  {
    Output(lx, text, |text|)
  }

  function Newlines(s: string): nat
  {
    if s == "" then 0 else Newlines(s[..|s| - 1]) + (if s[|s| - 1] == '\n' then 1 else 0)
  }

  lemma {:induction false} NewlinesJoin(a: string, b: string)
    ensures Newlines(a + b) == Newlines(a) + Newlines(b)
  {
    if b == "" {
      assert a + b == a;
    } else {
      assert (a + b)[..|a + b| - 1] == a + b[..|b| - 1];
      NewlinesJoin(a, b[..|b| - 1]);
    }
  }

  lemma EmitKeepsNewline(lx: Lexer, text: string, i: nat)
    requires i < |text|
    ensures Newlines(Emit(lx, text, i)) == Newlines([text[i]]) == if text[i] == '\n' then 1 else 0
  {
    hide ModeAt;
    var e := Emit(lx, text, i);
    assert [text[i]][..0] == "";
    if |e| == 2 {
      assert e[..1] == [e[0]] && e[..1][..0] == "";
    } else if |e| == 1 {
      assert e[..0] == "";
    }
  }

  // Line numbers: at every place of the text, as many newlines have come out as have gone in.
  lemma {:induction false} NewlinesKept(lx: Lexer, text: string, i: nat)
    requires i <= |text|
    ensures Newlines(Output(lx, text, i)) == Newlines(text[..i])
  {
    hide Emit;
    if i > 0 {
      NewlinesKept(lx, text, i - 1);
      EmitKeepsNewline(lx, text, i - 1);
      NewlinesJoin(Output(lx, text, i - 1), Emit(lx, text, i - 1));
      NewlinesJoin(text[..i - 1], [text[i - 1]]);
      assert text[..i] == text[..i - 1] + [text[i - 1]];
    }
  }

  lemma {:induction false} OutputGrows(lx: Lexer, text: string, i: nat, j: nat)
    requires i <= j <= |text|
    ensures |Output(lx, text, i)| <= |Output(lx, text, j)|
    ensures Output(lx, text, j)[..|Output(lx, text, i)|] == Output(lx, text, i)
    decreases j - i
  {
    hide Emit;
    if i < j {
      OutputGrows(lx, text, i, j - 1);
    }
  }

  lemma EmitInOutput(lx: Lexer, text: string, i: nat, k: nat)
    requires i < |text| && k < |Emit(lx, text, i)|
    ensures |Output(lx, text, i)| + k < |Stripped(lx, text)|
    ensures Stripped(lx, text)[|Output(lx, text, i)| + k] == Emit(lx, text, i)[k]
  {
    hide Emit;
    OutputGrows(lx, text, i + 1, |text|);
    var now := Output(lx, text, i + 1);
    assert now == Output(lx, text, i) + Emit(lx, text, i);
    assert Stripped(lx, text)[..|now|][|Output(lx, text, i)| + k] == now[|Output(lx, text, i)| + k];
  }

  // Code survives on the line it was on.
  lemma CodeKeepsItsLine(lx: Lexer, text: string, i: nat)
    requires i < |text| && ModeAt(lx, text, i) == Code && !OpensComment(text, i)
    ensures var at := |Output(lx, text, i)|;
            && at < |Stripped(lx, text)|
            && Stripped(lx, text)[at] == text[i]
            && Newlines(Stripped(lx, text)[..at]) == Newlines(text[..i])
  {
    EmitInOutput(lx, text, i, 0);
    OutputGrows(lx, text, i, |text|);
    NewlinesKept(lx, text, i);
  }

  // With literals kept nothing moves at all: comments are blanked where they stand.
  lemma {:induction false} KeptInPlace(text: string, i: nat)
    requires i <= |text|
    ensures |Output(KeepLiterals, text, i)| == i
    ensures forall k :: 0 <= k < i ==>
              Output(KeepLiterals, text, i)[k] == if InComment(KeepLiterals, text, k) then Blank(text[k]) else text[k]
    ensures forall k :: 0 <= k < i ==> (Output(KeepLiterals, text, i)[k] == '\n' <==> text[k] == '\n')
  {
    hide InComment;
    if i > 0 {
      KeptInPlace(text, i - 1);
    }
  }

  // Reading the stripped text again: literals are where they were, and there is no comment any more.
  function Quiet(mode: Mode): Mode
  {
    if mode in {BlockOpen, Block, BlockClose, Line} then Code else mode
  }

  lemma StrippedAt(text: string, k: nat)
    requires k < |text|
    ensures |Stripped(KeepLiterals, text)| == |text|
    ensures Stripped(KeepLiterals, text)[k] == if InComment(KeepLiterals, text, k) then Blank(text[k]) else text[k]
  {
    hide InComment, Output;
    KeptInPlace(text, |text|);
  }

  // A comment cannot open in the stripped text at a place that was not in a comment, nor at one that was.
  lemma NoCommentOpens(text: string, i: nat)
    requires i < |text| && Quiet(ModeAt(KeepLiterals, text, i)) == Code
    ensures |Stripped(KeepLiterals, text)| == |text| && !OpensComment(Stripped(KeepLiterals, text), i)
  {
    StrippedAt(text, i);
    if i + 1 < |text| && !InComment(KeepLiterals, text, i) {
      hide Stripped;
      StrippedAt(text, i + 1);
    }
  }

  lemma {:induction false} ModeAfterStripping(text: string, i: nat)
    requires i <= |text|
    ensures |Stripped(KeepLiterals, text)| == |text|
    ensures ModeAt(KeepLiterals, Stripped(KeepLiterals, text), i) == Quiet(ModeAt(KeepLiterals, text, i))
  {
    hide Stripped;
    KeptInPlaceAll(text);
    if i > 0 {
      ModeAfterStripping(text, i - 1);
      StrippedAt(text, i - 1);
      if Quiet(ModeAt(KeepLiterals, text, i - 1)) == Code {
        NoCommentOpens(text, i - 1);
      }
    }
  }

  lemma KeptInPlaceAll(text: string)
    ensures |Stripped(KeepLiterals, text)| == |text|
  {
    KeptInPlace(text, |text|);
  }

  lemma StrippedTwiceKeepingLiterals(text: string)
    ensures Stripped(KeepLiterals, Stripped(KeepLiterals, text)) == Stripped(KeepLiterals, text)
  {
    hide Stripped, ModeAt, InComment;
    var once := Stripped(KeepLiterals, text);
    KeptInPlaceAll(text);
    KeptInPlaceAll(once);
    forall k | 0 <= k < |text|
      ensures Stripped(KeepLiterals, once)[k] == once[k]
    {
      StrippedAt(once, k);
      NotInCommentAgain(text, k);
    }
  }

  lemma NotInCommentAgain(text: string, k: nat)
    requires k < |text|
    ensures |Stripped(KeepLiterals, text)| == |text| && !InComment(KeepLiterals, Stripped(KeepLiterals, text), k)
  {
    hide Stripped, ModeAt;
    ModeAfterStripping(text, k);
    if Quiet(ModeAt(KeepLiterals, text, k)) == Code {
      NoCommentOpens(text, k);
    }
  }

  // With literals dropped, the stripped text is read in code from each emission to the next.
  lemma {:induction false} DroppedReadsBack(text: string, i: nat)
    requires i <= |text|
    ensures ReadBack(text, i)
  {
    if i > 0 {
      hide ReadBack;
      DroppedReadsBack(text, i - 1);
      EmissionReadsBack(text, i - 1);
    }
  }

  // The stripped text is read in code up to where the first i characters end, and gives back what they gave.
  ghost predicate ReadBack(text: string, i: nat)
    requires i <= |text|
  {
    var once, at := Stripped(DropLiterals, text), |Output(DropLiterals, text, i)|;
    at <= |once| && ModeAt(DropLiterals, once, at) == Code && Output(DropLiterals, once, at) == Output(DropLiterals, text, i)
  }

  // One emission, read back: nothing, an empty literal, or one character that neither opens a comment nor a literal.
  lemma EmissionReadsBack(text: string, i: nat)
    requires i < |text| && ReadBack(text, i)
    ensures ReadBack(text, i + 1)
  {
    hide ReadBack, ModeAt, InComment;
    if |Emit(DropLiterals, text, i)| == 2 {
      EmptyLiteralKeepsUp(text, i);
    } else if |Emit(DropLiterals, text, i)| == 1 {
      PlainKeepsUp(text, i);
    } else {
      NothingKeepsUp(text, i);
    }
  }

  lemma NothingKeepsUp(text: string, i: nat)
    requires i < |text| && ReadBack(text, i) && Emit(DropLiterals, text, i) == ""
    ensures ReadBack(text, i + 1)
  {
    hide Stripped, Emit, ModeAt;
    assert Output(DropLiterals, text, i + 1) == Output(DropLiterals, text, i);
  }

  lemma EmptyLiteralKeepsUp(text: string, i: nat)
    requires i < |text| && ReadBack(text, i) && |Emit(DropLiterals, text, i)| == 2
    ensures ReadBack(text, i + 1)
  {
    var once, at, e := Stripped(DropLiterals, text), |Output(DropLiterals, text, i)|, Emit(DropLiterals, text, i);
    assert IsQuote(e[0]) && e[1] == e[0] by { hide Stripped, ModeAt; }
    hide Stripped, Emit, ModeAt, IsQuote;
    EmitInOutput(DropLiterals, text, i, 0);
    EmitInOutput(DropLiterals, text, i, 1);
    EmptyLiteralReadsBack(once, at);
    assert Output(DropLiterals, text, i + 1) == Output(DropLiterals, text, i) + e;
    assert once[at..at + 2] == [once[at], once[at + 1]] == [e[0], e[1]] == e;
  }

  lemma PlainKeepsUp(text: string, i: nat)
    requires i < |text| && ReadBack(text, i) && |Emit(DropLiterals, text, i)| == 1
    ensures ReadBack(text, i + 1)
  {
    var once, at, e := Stripped(DropLiterals, text), |Output(DropLiterals, text, i)|, Emit(DropLiterals, text, i);
    hide Stripped, Emit, ModeAt, IsQuote, OpensComment;
    EmitInOutput(DropLiterals, text, i, 0);
    NoQuoteAlone(text, i);
    NoSlashPair(text, i);
    PlainReadsBack(once, at);
    assert Output(DropLiterals, text, i + 1) == Output(DropLiterals, text, i) + e;
    assert [once[at]] == e;
  }

  lemma EmptyLiteralReadsBack(once: string, at: nat)
    requires at + 1 < |once| && ModeAt(DropLiterals, once, at) == Code
    requires IsQuote(once[at]) && once[at + 1] == once[at]
    ensures ModeAt(DropLiterals, once, at + 2) == Code
    ensures Output(DropLiterals, once, at + 2) == Output(DropLiterals, once, at) + once[at..at + 2]
  {
    assert ModeAt(DropLiterals, once, at + 1) == Literal(once[at]);
    assert Emit(DropLiterals, once, at) == [once[at], once[at]];
    assert Emit(DropLiterals, once, at + 1) == "";
    assert Output(DropLiterals, once, at + 2) == Output(DropLiterals, once, at + 1) + Emit(DropLiterals, once, at + 1);
  }

  lemma PlainReadsBack(once: string, at: nat)
    requires at < |once| && ModeAt(DropLiterals, once, at) == Code
    requires !IsQuote(once[at]) && !OpensComment(once, at)
    ensures ModeAt(DropLiterals, once, at + 1) == Code
    ensures Output(DropLiterals, once, at + 1) == Output(DropLiterals, once, at) + [once[at]]
  {
  }

  lemma NoQuoteAlone(text: string, i: nat)
    requires i < |text| && |Emit(DropLiterals, text, i)| == 1
    ensures !IsQuote(Emit(DropLiterals, text, i)[0])
  {
  }

  // A slash that comes out was neither followed by a slash nor by a star, and what follows it comes out next.
  lemma AfterSlash(text: string, i: nat)
    requires i + 1 < |text| && Emit(DropLiterals, text, i) == "/"
    ensures |Emit(DropLiterals, text, i + 1)| > 0 && Emit(DropLiterals, text, i + 1)[0] !in {'/', '*'}
  {
    assert ModeAt(DropLiterals, text, i) == Code && !OpensComment(text, i);
    assert ModeAt(DropLiterals, text, i + 1) == Code;
  }

  lemma NoSlashPair(text: string, i: nat)
    requires i < |text| && |Emit(DropLiterals, text, i)| == 1
    ensures |Output(DropLiterals, text, i)| < |Stripped(DropLiterals, text)|
    ensures !OpensComment(Stripped(DropLiterals, text), |Output(DropLiterals, text, i)|)
  {
    hide Stripped, Emit;
    EmitInOutput(DropLiterals, text, i, 0);
    var once, at := Stripped(DropLiterals, text), |Output(DropLiterals, text, i)|;
    if OpensComment(once, at) {
      assert Emit(DropLiterals, text, i) == "/";
      assert |Output(DropLiterals, text, i + 1)| == at + 1;
      StrippedIsOutput(text);
      AfterSlash(text, i);
      EmitInOutput(DropLiterals, text, i + 1, 0);
      assert false;
    }
  }

  lemma StrippedIsOutput(text: string)
    ensures Stripped(DropLiterals, text) == Output(DropLiterals, text, |text|)
  {
  }

  lemma StrippedTwiceDroppingLiterals(text: string)
    ensures Stripped(DropLiterals, Stripped(DropLiterals, text)) == Stripped(DropLiterals, text)
  {
    DroppedReadsBack(text, |text|);
  }

  // Stripping twice changes nothing, whether or not the text ends inside a comment or a literal.
  lemma StrippedTwice(lx: Lexer, text: string)
    ensures Stripped(lx, Stripped(lx, text)) == Stripped(lx, text)
  {
    if lx == KeepLiterals {
      StrippedTwiceKeepingLiterals(text);
    } else {
      StrippedTwiceDroppingLiterals(text);
    }
  }
}

/** The shell's tokenizer, which cuts the command up in place, and the loop that gathers a command's words. */
module Shell {
  import opened Numbers
  import opened Options

  const WHITESPACE: CString := " \t\r\n"
  const SYMBOLS: CString := "<|>&;"
  const EXEC_MAX_ARG_NUM := 32

  // ----- the lexer as a function of the text --------------------------------------------------------------------

  predicate Space(c: char) {
    c in WHITESPACE
  }

  predicate Symbol(c: char) {
    c in SYMBOLS
  }

  datatype Token = End | Token(kind: char, start: nat, end: nat)

  function SpacesEnd(t: CString, i: nat): (e: nat)
    requires i <= |t|
    ensures i <= e <= |t| && (e < |t| ==> !Space(t[e])) && forall k :: i <= k < e ==> Space(t[k])
    decreases |t| - i
  {
    if i < |t| && Space(t[i]) then SpacesEnd(t, i + 1) else i
  }

  /** A word ends at the first blank or symbol outside quotes, or with the text. */
  function WordEnd(t: CString, i: nat, quoted: bool): (e: nat)
    requires i <= |t|
    ensures i <= e <= |t| && (e < |t| ==> Space(t[e]) || Symbol(t[e]))
    decreases |t| - i
  {
    if i == |t| || (!quoted && (Space(t[i]) || Symbol(t[i]))) then i
    else WordEnd(t, i + 1, if t[i] == '"' then !quoted else quoted)
  }

  /** The token at or after place `i`. */
  function Next(t: CString, i: nat): (r: Token)
    requires i <= |t|
    ensures r.Token? ==> i <= r.start < r.end <= |t| && r.kind != '\0'
  {
    var s := SpacesEnd(t, i);
    if s == |t| then End
    else if Symbol(t[s]) then Token(t[s], s, s + 1)
    else Token('w', s, WordEnd(t, s, false))
  }

  function Tokens(t: CString, i: nat): seq<Token>
    requires i <= |t|
    decreases |t| - i
  {
    var r := Next(t, i);
    if r.End? then [] else [r] + Tokens(t, r.end)
  }

  /** The number of quotes from place `i` up to place `k`. */
  function Quotes(t: CString, i: nat, k: nat): nat
    requires i <= k <= |t|
  {
    if k == i then 0 else Quotes(t, i, k - 1) + if t[k - 1] == '"' then 1 else 0
  }

  /** Place `k` ends a word that starts at `i`: a blank or symbol there is not quoted, the quotes before it pair up. */
  predicate Ends(t: CString, i: nat, k: nat)
    requires i <= k < |t|
  {
    (Space(t[k]) || Symbol(t[k])) && Quotes(t, i, k) % 2 == 0
  }

  /** A word ends at the first place that ends it. */
  lemma WordEndIsFirst(t: CString, i: nat)
    requires i <= |t|
    ensures var e := WordEnd(t, i, false);
      (e < |t| ==> Ends(t, i, e)) && forall k :: i <= k < e ==> !Ends(t, i, k)
  {
    WordEndFrom(t, i, i, false);
  }

  lemma {:induction false} WordEndFrom(t: CString, i: nat, j: nat, quoted: bool)
    requires i <= j <= |t| && (quoted <==> Quotes(t, i, j) % 2 == 1)
    ensures var e := WordEnd(t, j, quoted);
      (e < |t| ==> Ends(t, i, e)) && forall k :: j <= k < e ==> !Ends(t, i, k)
    decreases |t| - j
  {
    if j < |t| && (quoted || !(Space(t[j]) || Symbol(t[j]))) {
      WordEndFrom(t, i, j + 1, if t[j] == '"' then !quoted else quoted);
    }
  }

  predicate Covers(r: Token, k: nat) {
    r.Token? && r.start <= k < r.end
  }

  /** The tokens follow one another. */
  ghost predicate InOrder(ts: seq<Token>, from: nat) {
    && (forall n {:trigger ts[n]} :: 0 <= n < |ts| ==> ts[n].Token? && from <= ts[n].start < ts[n].end)
    && (forall m, n {:trigger ts[m], ts[n]} :: 0 <= m < n < |ts| ==> ts[m].end <= ts[n].start)
  }

  ghost predicate Covered(ts: seq<Token>, k: nat) {
    exists n {:trigger ts[n]} :: 0 <= n < |ts| && Covers(ts[n], k)
  }

  lemma ConsInOrder(r: Token, rest: seq<Token>, from: nat)
    requires r.Token? && from <= r.start < r.end && InOrder(rest, r.end)
    ensures InOrder([r] + rest, from)
  {
    var ts := [r] + rest;
    forall m, n | 0 <= m < n < |ts|
      ensures ts[m].end <= ts[n].start
    {
      assert ts[n] == rest[n - 1] && (m > 0 ==> ts[m] == rest[m - 1]);
    }
  }

  lemma ConsCovered(r: Token, rest: seq<Token>, k: nat)
    requires Covers(r, k) || Covered(rest, k)
    ensures Covered([r] + rest, k)
  {
    var ts := [r] + rest;
    if Covers(r, k) {
      assert Covers(ts[0], k);
    } else {
      var n :| 0 <= n < |rest| && Covers(rest[n], k);
      assert Covers(ts[n + 1], k);
    }
  }

  /** The tokens are in order, without overlap, and between them there are only blanks. */
  lemma {:induction false} TokensCover(t: CString, i: nat)
    requires i <= |t|
    ensures InOrder(Tokens(t, i), i)
    ensures forall k {:trigger Covered(Tokens(t, i), k)} :: i <= k < |t| && !Space(t[k]) ==> Covered(Tokens(t, i), k)
    decreases |t| - i
  {
    hide Covered, InOrder, Space;
    var r := Next(t, i);
    if r.Token? {
      var rest := Tokens(t, r.end);
      TokensCover(t, r.end);
      ConsInOrder(r, rest, i);
      forall k | i <= k < |t| && !Space(t[k])
        ensures Covered(Tokens(t, i), k)
      {
        if k >= r.end { assert Covered(rest, k); }
        ConsCovered(r, rest, k);
      }
    } else {
      NoTokens(i);
    }
  }

  lemma NoTokens(i: nat)
    ensures InOrder([], i)
  {
  }

  /** Taking tokens until there are none: all of them, each where the last call left off. */
  lemma {:induction false} TokensAreBoundaries(t: CString, i: nat, n: nat)
    requires i <= |t| && n < |Tokens(t, i)|
    ensures var ts := Tokens(t, i); ts[n].Token? && ts[n].end <= |t| && Tokens(t, ts[n].end) == ts[n + 1..]
    decreases n
  {
    if n > 0 { TokensAreBoundaries(t, Next(t, i).end, n - 1); }
  }

  // ----- the tokens, character by character ---------------------------------------------------------------------

  /** A blank that is not quoted, as the quotes before it pair up. */
  predicate BlankAt(t: CString, k: nat)
    requires k < |t|
  {
    (t[k] == ' ' || t[k] == '\t' || t[k] == '\r' || t[k] == '\n') && Quotes(t, 0, k) % 2 == 0
  }

  /** A symbol that is not quoted. */
  predicate SymbolAt(t: CString, k: nat)
    requires k < |t|
  {
    (t[k] == '<' || t[k] == '|' || t[k] == '>' || t[k] == '&' || t[k] == ';') && Quotes(t, 0, k) % 2 == 0
  }

  predicate BreakAt(t: CString, k: nat)
    requires k < |t|
  {
    BlankAt(t, k) || SymbolAt(t, k)
  }

  /** The token is one symbol, or a word: as long a run as there is without unquoted blanks and symbols. */
  ghost predicate TokenIs(t: CString, r: Token) {
    r.Token? && r.start < r.end <= |t| &&
    if r.kind == 'w' then
      && (forall k :: r.start <= k < r.end ==> !BreakAt(t, k))
      && (r.start == 0 || BreakAt(t, r.start - 1)) && (r.end == |t| || BreakAt(t, r.end))
    else r.end == r.start + 1 && SymbolAt(t, r.start) && r.kind == t[r.start]
  }

  lemma Characters(c: char)
    ensures Space(c) <==> c == ' ' || c == '\t' || c == '\r' || c == '\n'
    ensures Symbol(c) <==> c == '<' || c == '|' || c == '>' || c == '&' || c == ';'
    ensures !Symbol('w')
  {
    assert WHITESPACE[0] == ' ' && WHITESPACE[1] == '\t' && WHITESPACE[2] == '\r' && WHITESPACE[3] == '\n';
    assert SYMBOLS[0] == '<' && SYMBOLS[1] == '|' && SYMBOLS[2] == '>' && SYMBOLS[3] == '&' && SYMBOLS[4] == ';';
  }

  lemma {:induction false} QuotesSplit(t: CString, i: nat, j: nat, k: nat)
    requires i <= j <= k <= |t|
    ensures Quotes(t, i, k) == Quotes(t, i, j) + Quotes(t, j, k)
    decreases k
  {
    if j < k { QuotesSplit(t, i, j, k - 1); }
  }

  lemma {:induction false} NoQuotes(t: CString, i: nat, k: nat)
    requires i <= k <= |t| && forall j :: i <= j < k ==> t[j] != '"'
    ensures Quotes(t, i, k) == 0
  {
    if i < k { NoQuotes(t, i, k - 1); }
  }

  lemma BreakIs(t: CString, k: nat)
    requires k < |t|
    ensures BlankAt(t, k) <==> Space(t[k]) && Quotes(t, 0, k) % 2 == 0
    ensures SymbolAt(t, k) <==> Symbol(t[k]) && Quotes(t, 0, k) % 2 == 0
  {
    Characters(t[k]);
  }

  /** A place where a call may start: no quote is open, and a word that starts here is not the rest of another. */
  predicate FreshAt(t: CString, i: nat) {
    i <= |t| && (i == |t| || Quotes(t, 0, i) % 2 == 0) && (i == 0 || i == |t| || BreakAt(t, i - 1) || BreakAt(t, i))
  }

  lemma NextIs(t: CString, i: nat)
    requires FreshAt(t, i)
    ensures var r := Next(t, i);
      && (forall k :: i <= k < (if r.Token? then r.start else |t|) ==> BlankAt(t, k))
      && (r.Token? ==> TokenIs(t, r) && FreshAt(t, r.end))
  {
    hide Space, Symbol;
    var s := SpacesEnd(t, i);
    forall k | i <= k <= s < |t| || i <= k < s
      ensures k < |t| ==> Quotes(t, 0, k) % 2 == 0 && (k < s ==> BlankAt(t, k))
    {
      forall j | i <= j < k
        ensures t[j] != '"'
      {
        Characters(t[j]);
      }
      NoQuotes(t, i, k);
      QuotesSplit(t, 0, i, k);
      if k < |t| { BreakIs(t, k); }
    }
    if s < |t| {
      BreakIs(t, s);
      Characters(t[s]);
      if Symbol(t[s]) {
        assert t[s] != '"' && Quotes(t, 0, s + 1) == Quotes(t, 0, s);
      } else {
        WordIs(t, i, s);
      }
    }
  }

  lemma WordIs(t: CString, i: nat, s: nat)
    requires i <= s < |t| && FreshAt(t, i) && s == SpacesEnd(t, i) && !Space(t[s]) && !Symbol(t[s])
    requires Quotes(t, 0, s) % 2 == 0 && (i < s ==> BlankAt(t, s - 1))
    ensures var r := Token('w', s, WordEnd(t, s, false)); TokenIs(t, r) && FreshAt(t, r.end)
  {
    hide Space, Symbol;
    var e := WordEnd(t, s, false);
    WordEndIsFirst(t, s);
    BreakIs(t, s);
    forall k | s <= k <= e && k < |t|
      ensures BreakAt(t, k) <==> Ends(t, s, k)
      ensures Quotes(t, 0, k) % 2 == Quotes(t, s, k) % 2
    {
      QuotesSplit(t, 0, s, k);
      BreakIs(t, k);
    }
    assert e > s;
    assert s == 0 || BreakAt(t, s - 1);
  }

  lemma {:induction false} TokensFrom(t: CString, i: nat)
    requires i <= |t| && FreshAt(t, i)
    ensures forall n {:trigger Tokens(t, i)[n]} :: 0 <= n < |Tokens(t, i)| ==> TokenIs(t, Tokens(t, i)[n])
    ensures forall k :: i <= k < |t| ==> (Covered(Tokens(t, i), k) <==> !BlankAt(t, k))
    decreases |t| - i
  {
    hide Next, Covered, TokenIs, BlankAt, FreshAt, Covers, InOrder;
    var r := Next(t, i);
    NextIs(t, i);
    if r.Token? {
      var rest := Tokens(t, r.end);
      TokenBounds(t, r);
      TokensFrom(t, r.end);
      TokensCover(t, r.end);
      forall k | i <= k < |t|
        ensures Covered(Tokens(t, i), k) <==> !BlankAt(t, k)
      {
        ConsCoveredIff(r, rest, k);
        if k < r.end { NotCovered(rest, r.end, k); }
        TokenCovers(t, r, k);
      }
    } else {
      forall k | i <= k < |t|
        ensures !Covered([], k)
      {
        NotCovered([], i, k) by { NoTokens(|t|); }
      }
    }
  }

  lemma TokenBounds(t: CString, r: Token)
    requires TokenIs(t, r)
    ensures r.start < r.end <= |t|
  {
  }

  lemma ConsCoveredIff(r: Token, rest: seq<Token>, k: nat)
    ensures Covered([r] + rest, k) <==> Covers(r, k) || Covered(rest, k)
  {
    if Covers(r, k) || Covered(rest, k) { ConsCovered(r, rest, k); }
    if Covered([r] + rest, k) {
      var n :| 0 <= n < |[r] + rest| && Covers(([r] + rest)[n], k);
      assert n > 0 ==> ([r] + rest)[n] == rest[n - 1];
    }
  }

  lemma NotCovered(ts: seq<Token>, from: nat, k: nat)
    requires (ts == [] || InOrder(ts, from)) && (ts == [] || k < from)
    ensures !Covered(ts, k)
  {
  }

  lemma TokenCovers(t: CString, r: Token, k: nat)
    requires TokenIs(t, r) && k < |t|
    ensures Covers(r, k) <==> r.start <= k < r.end
    ensures Covers(r, k) ==> !BlankAt(t, k)
  {
    assert BreakAt(t, k) <==> BlankAt(t, k) || SymbolAt(t, k);
  }

  /**
   * The tokens of a text: every unquoted symbol is one, with itself as its kind; every longest run of other characters
   * or quoted ones is a word; and unquoted blanks are in none.
   */
  lemma TokensExactly(t: CString)
    ensures forall n {:trigger Tokens(t, 0)[n]} :: 0 <= n < |Tokens(t, 0)| ==> TokenIs(t, Tokens(t, 0)[n])
    ensures forall k :: 0 <= k < |t| ==> (Covered(Tokens(t, 0), k) <==> !BlankAt(t, k))
    ensures forall k :: 0 <= k < |t| && SymbolAt(t, k) ==> Token(t[k], k, k + 1) in Tokens(t, 0)
  {
    TokensFrom(t, 0);
    var ts := Tokens(t, 0);
    forall k | 0 <= k < |t| && SymbolAt(t, k)
      ensures Token(t[k], k, k + 1) in ts
    {
      BreakIs(t, k);
      Characters(t[k]);
      assert !BlankAt(t, k) && BreakAt(t, k);
      var n :| 0 <= n < |ts| && Covers(ts[n], k);
      assert TokenIs(t, ts[n]);
      assert ts[n] == Token(t[k], k, k + 1);
    }
  }

  // ----- what becomes of the buffer -----------------------------------------------------------------------------

  function Unquoted(c: char): char {
    if c == '"' then ' ' else c
  }

  /** A word as its reader finds it: with a blank for every quote. */
  function Word(s: string): (w: string)
    ensures |w| == |s|
  {
    seq(|s|, k requires 0 <= k < |s| => Unquoted(s[k]))
  }

  function Nuls(n: nat): (s: string)
    ensures |s| == n
  {
    seq(n, _ => '\0')
  }

  /** The text from place `i` on after all its tokens have been taken: words, and terminators around them. */
  function Cut(t: CString, i: nat): (s: string)
    requires i <= |t|
    ensures |s| == |t| - i
    decreases |t| - i
  {
    match Next(t, i)
    case End => Nuls(|t| - i)
    case Token(kind, start, end) =>
      Nuls(start - i) + (if kind == 'w' then Word(t[start..end]) else Nuls(1)) + Cut(t, end)
  }

  /** The string that starts at place `p` of a buffer. */
  function StringAt(b: string, p: nat): (s: string)
    requires p <= |b|
    ensures p + |s| <= |b|
    decreases |b| - p
  {
    if p == |b| || b[p] == '\0' then "" else [b[p]] + StringAt(b, p + 1)
  }

  lemma {:induction false} StringAtIs(b: string, p: nat, s: string)
    requires p + |s| < |b| && b[p..p + |s|] == s && b[p + |s|] == '\0' && forall k :: 0 <= k < |s| ==> s[k] != '\0'
    ensures StringAt(b, p) == s
    decreases |s|
  {
    if s != "" {
      assert b[p] == s[0];
      assert b[p + 1..p + |s|] == s[1..];
      StringAtIs(b, p + 1, s[1..]);
    }
  }

  // ----- one call -----------------------------------------------------------------------------------------------

  /** What one token leaves of the text between its predecessor's end and its own. */
  function Piece(t: CString, i: nat): (s: string)
    requires i <= |t|
    ensures |s| == (if Next(t, i).End? then |t| else Next(t, i).end) - i
  {
    match Next(t, i)
    case End => Nuls(|t| - i)
    case Token(kind, start, end) => Nuls(start - i) + if kind == 'w' then Word(t[start..end]) else Nuls(1)
  }

  /** Place `i` is where a call of `gettoken` may start. */
  ghost predicate Boundary(t: CString, i: nat) {
    i <= |t| && Cut(t, 0)[i..] == Cut(t, i)
  }

  /** Up to place `i` the buffer is cut up, and behind it holds the text. */
  ghost predicate Reading(b: string, t: CString, i: nat) {
    Boundary(t, i) && |t| < |b| && b[..i] == Cut(t, 0)[..i] && b[i..|t|] == t[i..] && b[|t|] == '\0'
  }

  lemma ReadingIs(b: string, t: CString, i: nat)
    requires Reading(b, t, i)
    ensures |t| < |b| && i <= |t| && b[..i] == Cut(t, 0)[..i] && b[i..|t|] == t[i..] && b[|t|] == '\0' && Boundary(t, i)
  {
  }

  lemma ReadingAt(b: string, t: CString, i: nat)
    requires Reading(b, t, i)
    ensures i <= |t| < |b| && b[i] == At(t, i)
  {
    if i < |t| { assert b[i] == b[i..|t|][0] == t[i..][0]; }
  }

  lemma CutStartsEmpty(t: CString, i: nat)
    requires i < |t| && (Space(t[i]) || Symbol(t[i]))
    ensures Cut(t, i)[0] == '\0'
  {
  }

  lemma WordStands(t: CString, i: nat)
    requires Boundary(t, i) && Next(t, i).Token? && Next(t, i).kind == 'w'
    ensures Stands(t, Next(t, i)) && Boundary(t, Next(t, i).end)
  {
    var r, all := Next(t, i), Cut(t, 0);
    assert 'w' !in SYMBOLS;
    assert all[i..] == Nuls(r.start - i) + Word(t[r.start..r.end]) + Cut(t, r.end);
    hide Cut, Next;
    assert all[r.start..r.end] == all[i..][r.start - i..r.end - i];
    assert all[r.end..] == all[i..][r.end - i..];
    if r.end < |t| {
      WordEnds(t, i, r);
      CutStartsEmpty(t, r.end);
      assert all[r.end] == all[r.end..][0];
    }
  }

  lemma WordEnds(t: CString, i: nat, r: Token)
    requires i <= |t| && Next(t, i) == r && r.Token? && r.kind == 'w' && r.end < |t|
    ensures Space(t[r.end]) || Symbol(t[r.end])
  {
    assert 'w' !in SYMBOLS;
  }

  lemma WordHasNoNul(s: CString)
    ensures forall k :: 0 <= k < |s| ==> Word(s)[k] != '\0'
  {
  }

  /** Once a later call has moved past its end, a word is a string of its own. */
  lemma WordIsString(b: string, t: CString, r: Token, e: nat)
    requires Stands(t, r) && |t| < |b| && b[|t|] == '\0' && e <= |t| && b[..e] == Cut(t, 0)[..e]
    requires r.end < e || e == |t|
    ensures StringAt(b, r.start) == Word(t[r.start..r.end])
  {
    hide Cut, Word, Stands;
    StandsIs(t, r);
    var w: CString := t[r.start..r.end];
    WordHasNoNul(w);
    SamePrefix(b, Cut(t, 0), e, r.start, r.end);
    StringAtIs(b, r.start, Word(w));
  }

  lemma SamePrefix(b: string, all: string, e: nat, s: nat, f: nat)
    requires s <= f <= e <= |b| && e <= |all| && b[..e] == all[..e]
    ensures b[s..f] == all[s..f] && (f < e ==> b[f] == all[f])
  {
    assert b[s..f] == b[..e][s..f];
    assert all[s..f] == all[..e][s..f];
    assert f < e ==> b[f] == b[..e][f] && all[f] == all[..e][f];
  }

  /**
   * But right after the call that found it, which is when `<` and `>` open it, a word still runs on to the end of the
   * text; so it is its own string exactly if it is the last thing in the text.
   */
  lemma OperandIsWordIff(b: string, t: CString, r: Token)
    requires Stands(t, r) && Reading(b, t, r.end)
    ensures StringAt(b, r.start) == Word(t[r.start..r.end]) + t[r.end..]
    ensures StringAt(b, r.start) == Word(t[r.start..r.end]) <==> r.end == |t|
  {
    ReadingIs(b, t, r.end);
    hide Cut, Next, Word, Stands, Boundary, Reading, StringAt;
    StandsIs(t, r);
    var w: CString := t[r.start..r.end];
    WordHasNoNul(w);
    SamePrefix(b, Cut(t, 0), r.end, r.start, r.end);
    RunsOn(b, t, r.start, r.end, Word(w));
    StringAtIs(b, r.start, Word(w) + t[r.end..]);
    assert |Word(w) + t[r.end..]| == |Word(w)| + (|t| - r.end);
    assert r.end == |t| ==> t[r.end..] == "" && Word(w) + t[r.end..] == Word(w);
  }

  lemma RunsOn(b: string, t: CString, s: nat, e: nat, w: string)
    requires s <= e <= |t| < |b| && b[s..e] == w && b[e..|t|] == t[e..]
    ensures b[s..s + |w + t[e..]|] == w + t[e..]
  {
    assert b[s..|t|] == b[s..e] + b[e..|t|];
  }

  // ----- gathering a command ------------------------------------------------------------------------------------

  datatype Stop = RunIt | PipeTo | Sequence | TooMany | NoOperand | NotOpened | BadToken

  datatype Command = Command(words: seq<Token>, files: seq<(char, string)>, stop: Stop, at: nat)

  /** Whether the redirection of the given kind to the given file succeeds. */
  type Opens = (char, string) -> bool

  /** What the loop of `runcmd` comes to, in terms of the text. */
  function Gathered(t: CString, i: nat, words: seq<Token>, files: seq<(char, string)>, opens: Opens): Command
    requires i <= |t|
    decreases |t| - i
  {
    var r := Next(t, i);
    if r.End? then Command(words, files, RunIt, i)
    else if r.kind == 'w' then
      if |words| == EXEC_MAX_ARG_NUM then Command(words, files, TooMany, r.end)
      else Gathered(t, r.end, words + [r], files, opens)
    else if r.kind == '<' || r.kind == '>' then
      var o := Next(t, r.end);
      if o.End? || o.kind != 'w' then Command(words, files, NoOperand, if o.End? then r.end else o.end)
      else
        var name := Word(t[o.start..o.end]) + t[o.end..];
        if opens(r.kind, name) then Gathered(t, o.end, words, files + [(r.kind, name)], opens)
        else Command(words, files + [(r.kind, name)], NotOpened, o.end)
    else Command(words, files, if r.kind == '|' then PipeTo else if r.kind == ';' then Sequence else BadToken, r.end)
  }

  // ----- a command in terms of all tokens of the text -----------------------------------------------------------

  predicate Redirects(r: Token) {
    r.Token? && (r.kind == '<' || r.kind == '>')
  }

  /** Token `n` directly follows a `<` or `>`. */
  predicate Redirected(ts: seq<Token>, n: nat)
    requires n < |ts|
  {
    n > 0 && Redirects(ts[n - 1])
  }

  /** The words among the tokens, in order, but for those that directly follow a `<` or `>`. */
  function PlainWords(ts: seq<Token>): seq<Token> {
    if ts == [] then []
    else
      var n := |ts| - 1;
      PlainWords(ts[..n]) + if ts[n].Token? && ts[n].kind == 'w' && !Redirected(ts, n) then [ts[n]] else []
  }

  /** What a redirection opens: all the text from its operand on, with blanks for the quotes of the operand. */
  function Operand(t: CString, r: Token): string
    requires r.Token? && r.start <= r.end <= |t|
  {
    seq(|t| - r.start, k requires 0 <= k < |t| - r.start =>
      if t[r.start + k] == '"' && k < r.end - r.start then ' ' else t[r.start + k])
  }

  ghost predicate Within(t: CString, ts: seq<Token>) {
    forall n {:trigger ts[n]} :: 0 <= n < |ts| ==> ts[n].Token? && ts[n].start <= ts[n].end <= |t|
  }

  /** The symbols `<` and `>` that a word directly follows, in order, each with what it opens. */
  ghost function Redirections(t: CString, ts: seq<Token>): seq<(char, string)>
    requires Within(t, ts)
  {
    if ts == [] then []
    else
      var n := |ts| - 1;
      Redirections(t, ts[..n]) +
      if ts[n].kind == 'w' && Redirected(ts, n) then [(ts[n - 1].kind, Operand(t, ts[n]))] else []
  }

  /** The reason to stop at token `n`, if all tokens before it were taken. */
  ghost function StopAt(t: CString, ts: seq<Token>, n: nat, opens: Opens): Option<Stop>
    requires Within(t, ts) && n < |ts|
  {
    var kind := ts[n].kind;
    if kind == '|' then Some(PipeTo)
    else if kind == ';' then Some(Sequence)
    else if kind == '<' || kind == '>' then
      if n + 1 == |ts| || ts[n + 1].kind != 'w' then Some(NoOperand)
      else if !opens(kind, Operand(t, ts[n + 1])) then Some(NotOpened)
      else None
    else if kind == 'w' then
      if !Redirected(ts, n) && |PlainWords(ts[..n])| == 32 then Some(TooMany) else None
    else Some(BadToken)
  }

  /** Where token `n` ends; before the first there is place `i`. */
  function EndOf(ts: seq<Token>, n: int, i: nat): nat
    requires -1 <= n < |ts|
  {
    if n >= 0 && ts[n].Token? then ts[n].end else i
  }

  /** The command is what the tokens before `m` say, where `m` is the first token to stop at, or the end. */
  ghost predicate GatheredTo(t: CString, i: nat, ts: seq<Token>, opens: Opens, c: Command, m: nat)
    requires Within(t, ts)
  {
    && m <= |ts| && (forall n :: 0 <= n < m ==> StopAt(t, ts, n, opens) == None)
    && c.words == PlainWords(ts[..m])
    && if m == |ts| then c.stop == RunIt && c.files == Redirections(t, ts) && c.at == EndOf(ts, m - 1, i)
       else
         && StopAt(t, ts, m, opens) == Some(c.stop)
         && c.files == Redirections(t, ts[..if c.stop == NotOpened then m + 2 else m])
         && c.at == EndOf(ts, if c.stop == NotOpened || (c.stop == NoOperand && m + 1 < |ts|) then m + 1 else m, i)
  }

  lemma {:induction false} TokensWithin(t: CString, i: nat)
    requires i <= |t|
    ensures Within(t, Tokens(t, i))
    decreases |t| - i
  {
    hide Next;
    var r := Next(t, i);
    if r.Token? { TokensWithin(t, r.end); }
  }

  lemma OperandIs(t: CString, r: Token)
    requires r.Token? && r.start <= r.end <= |t|
    ensures Operand(t, r) == Word(t[r.start..r.end]) + t[r.end..]
  {
  }

  lemma OneMoreToken(t: CString, ts: seq<Token>, n: nat)
    requires Within(t, ts) && n < |ts|
    ensures Within(t, ts[..n]) && Within(t, ts[..n + 1])
    ensures PlainWords(ts[..n + 1]) ==
            PlainWords(ts[..n]) + if ts[n].kind == 'w' && !Redirected(ts, n) then [ts[n]] else []
    ensures Redirections(t, ts[..n + 1]) == Redirections(t, ts[..n]) +
            if ts[n].kind == 'w' && Redirected(ts, n) then [(ts[n - 1].kind, Operand(t, ts[n]))] else []
  {
    assert ts[..n + 1][..n] == ts[..n];
  }

  /** The first `n` tokens have been taken, and none of them was one to stop at. */
  ghost predicate Taken(t: CString, i: nat, opens: Opens, ts: seq<Token>, n: nat) {
    && i <= |t| && ts == Tokens(t, i) && Within(t, ts) && n <= |ts| && (n > 0 ==> !Redirects(ts[n - 1]))
    && (forall k :: 0 <= k < n ==> StopAt(t, ts, k, opens) == None)
    && EndOf(ts, n - 1, i) <= |t| && Tokens(t, EndOf(ts, n - 1, i)) == ts[n..]
  }

  ghost function GatheredAfter(t: CString, i: nat, opens: Opens, ts: seq<Token>, n: nat): Command
    requires Taken(t, i, opens, ts, n)
  {
    Gathered(t, EndOf(ts, n - 1, i), PlainWords(ts[..n]), Redirections(t, ts[..n]), opens)
  }

  lemma WordTaken(t: CString, i: nat, opens: Opens, ts: seq<Token>, n: nat)
    requires Taken(t, i, opens, ts, n) && n < |ts| && ts[n].kind == 'w' && StopAt(t, ts, n, opens) == None
    ensures Taken(t, i, opens, ts, n + 1) && GatheredAfter(t, i, opens, ts, n + 1) == GatheredAfter(t, i, opens, ts, n)
  {
    hide Next, PlainWords, Redirections;
    OneMoreToken(t, ts, n);
    TokensAreBoundaries(t, i, n);
    assert Next(t, EndOf(ts, n - 1, i)) == ts[n];
    assert Redirections(t, ts[..n + 1]) == Redirections(t, ts[..n]);
    assert PlainWords(ts[..n + 1]) == PlainWords(ts[..n]) + [ts[n]];
  }

  lemma RedirectionTaken(t: CString, i: nat, opens: Opens, ts: seq<Token>, n: nat)
    requires Taken(t, i, opens, ts, n) && n < |ts| && Redirects(ts[n]) && StopAt(t, ts, n, opens) == None
    ensures Taken(t, i, opens, ts, n + 2) && GatheredAfter(t, i, opens, ts, n + 2) == GatheredAfter(t, i, opens, ts, n)
  {
    hide Next, PlainWords, Redirections, Operand;
    OneMoreToken(t, ts, n);
    OneMoreToken(t, ts, n + 1);
    TokensAreBoundaries(t, i, n);
    TokensAreBoundaries(t, i, n + 1);
    OperandIs(t, ts[n + 1]);
    assert Next(t, EndOf(ts, n - 1, i)) == ts[n] && Next(t, ts[n].end) == ts[n + 1];
    assert PlainWords(ts[..n + 2]) == PlainWords(ts[..n + 1]) == PlainWords(ts[..n]);
    assert Redirections(t, ts[..n + 1]) == Redirections(t, ts[..n]);
  }

  lemma Stopped(t: CString, i: nat, opens: Opens, ts: seq<Token>, n: nat)
    requires Taken(t, i, opens, ts, n) && (n < |ts| ==> StopAt(t, ts, n, opens).Some?)
    requires |PlainWords(ts[..n])| <= 32
    ensures GatheredTo(t, i, ts, opens, GatheredAfter(t, i, opens, ts, n), n)
  {
    hide Next, PlainWords, Redirections, Operand;
    if n == |ts| {
      assert ts[..n] == ts;
    } else if Redirects(ts[n]) {
      StoppedAtRedirection(t, i, opens, ts, n);
    } else {
      assert Next(t, EndOf(ts, n - 1, i)) == ts[n];
    }
  }

  lemma StoppedAtRedirection(t: CString, i: nat, opens: Opens, ts: seq<Token>, n: nat)
    requires Taken(t, i, opens, ts, n) && n < |ts| && Redirects(ts[n]) && StopAt(t, ts, n, opens).Some?
    ensures GatheredTo(t, i, ts, opens, GatheredAfter(t, i, opens, ts, n), n)
  {
    hide Next, PlainWords, Redirections, Operand;
    assert Next(t, EndOf(ts, n - 1, i)) == ts[n];
    TokensAreBoundaries(t, i, n);
    OneMoreToken(t, ts, n);
    if n + 1 < |ts| {
      OneMoreToken(t, ts, n + 1);
      OperandIs(t, ts[n + 1]);
      assert Next(t, ts[n].end) == ts[n + 1];
    }
  }

  /** What remains to be gathered when the first `n` tokens have been taken. */
  lemma {:induction false} GatheredFrom(t: CString, i: nat, opens: Opens, ts: seq<Token>, n: nat) returns (m: nat)
    requires Taken(t, i, opens, ts, n) && |PlainWords(ts[..n])| <= 32
    ensures GatheredTo(t, i, ts, opens, GatheredAfter(t, i, opens, ts, n), m)
    decreases |ts| - n
  {
    hide Tokens, PlainWords, Redirections, Operand, Gathered, GatheredTo, GatheredAfter;
    if n == |ts| || StopAt(t, ts, n, opens).Some? {
      Stopped(t, i, opens, ts, n);
      m := n;
    } else {
      OneMoreToken(t, ts, n);
      if ts[n].kind == 'w' {
        WordTaken(t, i, opens, ts, n);
        m := GatheredFrom(t, i, opens, ts, n + 1);
      } else {
        OneMoreToken(t, ts, n + 1);
        RedirectionTaken(t, i, opens, ts, n);
        m := GatheredFrom(t, i, opens, ts, n + 2);
      }
    }
  }

  /** The loop takes tokens up to the first that stops it: words and redirections are those among the ones before. */
  lemma GatheredIs(t: CString, i: nat, opens: Opens) returns (m: nat)
    requires i <= |t|
    ensures Within(t, Tokens(t, i)) && GatheredTo(t, i, Tokens(t, i), opens, Gathered(t, i, [], [], opens), m)
  {
    TokensWithin(t, i);
    m := GatheredFrom(t, i, opens, Tokens(t, i), 0);
  }

  /** The buffer holds the word `r` as a string of its own. */
  ghost predicate HoldsWord(b: string, t: CString, r: Token) {
    && r.Token? && r.start <= r.end <= |t| < |b|
    && StringAt(b, r.start) == Word(t[r.start..r.end])
  }

  /** The string at a place of the buffer is what lies there up to the first terminator. */
  lemma {:induction false} StringAtEnds(b: string, p: nat)
    requires p <= |b|
    ensures var s := StringAt(b, p);
      && b[p..p + |s|] == s && (forall k :: 0 <= k < |s| ==> s[k] != '\0')
      && (p + |s| == |b| || b[p + |s|] == '\0')
    decreases |b| - p
  {
    if p < |b| && b[p] != '\0' {
      StringAtEnds(b, p + 1);
      var rest := StringAt(b, p + 1);
      assert b[p..p + 1 + |rest|] == [b[p]] + b[p + 1..p + 1 + |rest|];
    }
  }

  /** A word held in the buffer is its text, with blanks for quotes, and a terminator behind it. */
  lemma HeldWordIs(b: string, t: CString, r: Token)
    requires HoldsWord(b, t, r)
    ensures forall k :: r.start <= k < r.end ==> b[k] == if t[k] == '"' then ' ' else t[k]
    ensures r.end < |b| && b[r.end] == '\0'
  {
    StringAtEnds(b, r.start);
    var w := StringAt(b, r.start);
    forall k | r.start <= k < r.end
      ensures b[k] == if t[k] == '"' then ' ' else t[k]
    {
      assert b[k] == b[r.start..r.start + |w|][k - r.start];
    }
  }

  lemma WordsAreStrings(b: string, t: CString, words: seq<Token>, i: nat, e: nat)
    requires |t| < |b| && b[|t|] == '\0' && i <= e <= |t| && b[..e] == Cut(t, 0)[..e] && (i < e || e == |t|)
    requires forall k {:trigger words[k]} :: 0 <= k < |words| ==> Stands(t, words[k]) && words[k].end <= i
    ensures forall k {:trigger words[k]} :: 0 <= k < |words| ==> HoldsWord(b, t, words[k])
  {
    hide Stands, Cut;
    forall k | 0 <= k < |words|
      ensures HoldsWord(b, t, words[k])
    {
      StandsIs(t, words[k]);
      WordIsString(b, t, words[k], e);
    }
  }

  lemma StartReading(b: string, t: CString)
    requires |t| < |b| && b[..|t|] == t && b[|t|] == '\0'
    ensures Reading(b, t, 0)
  {
    assert Cut(t, 0)[0..] == Cut(t, 0);
    assert b[0..|t|] == t[0..];
  }

  lemma Pasted(b: string, b': string, all: string, i: nat, e: nat, n: nat, piece: string, rest: string)
    requires i <= e <= n < |b| && |all| == n && |piece| == e - i && b' == b[..i] + piece + b[e..]
    requires b[..i] == all[..i] && all[i..] == piece + rest
    ensures |b'| == |b| && b'[..e] == all[..e] && all[e..] == rest && b'[e..n] == b[e..n] && b'[n] == b[n]
  {
    assert all == all[..i] + piece + rest;
  }

  /** Putting the piece in the place of the text it stands for. */
  lemma ReadingMoves(b: string, b': string, t: CString, i: nat)
    requires Reading(b, t, i) && Next(t, i).Token?
    requires b' == b[..i] + Piece(t, i) + b[Next(t, i).end..]
    ensures Reading(b', t, Next(t, i).end)
  {
    var e := Next(t, i).end;
    assert Cut(t, i) == Piece(t, i) + Cut(t, e);
    hide Cut, Piece, Next;
    Pasted(b, b', Cut(t, 0), i, e, |t|, Piece(t, i), Cut(t, e));
    assert b[e..|t|] == b[i..|t|][e - i..];
    assert t[e..] == t[i..][e - i..];
  }

  lemma ReadingEnds(b: string, b': string, t: CString, i: nat)
    requires Reading(b, t, i) && Next(t, i).End? && b' == b[..i] + Nuls(|t| - i) + b[|t|..]
    ensures b'[..|t|] == Cut(t, 0)
  {
    var all := Cut(t, 0);
    assert all == all[..i] + all[i..];
  }

  /** This `strchr` finds no terminator, in any string. */
  method Strchr(s: CString, c: char) returns (r: Option<nat>)
    ensures r.Some? <==> c in s
    ensures r.Some? ==> r.value < |s| && s[r.value] == c && c !in s[..r.value]
    ensures c == '\0' ==> r.None?
  {
    var i := 0;
    while At(s, i) != '\0'
      invariant i <= |s| && c !in s[..i]
      decreases |s| - i
    {
      if s[i] == c { return Some(i); }
      i := i + 1;
    }
    return None;
  }

  /** Terminators for the blanks from place `i` on. */
  method SkipSpaces(buf: array<char>, i: nat, ghost t: CString) returns (s: nat)
    requires i <= |t| < buf.Length && buf[i..|t|] == t[i..] && buf[|t|] == '\0'
    modifies buf
    ensures s == SpacesEnd(t, i) && buf[..] == old(buf[..i]) + Nuls(s - i) + old(buf[s..])
  {
    s := i;
    ghost var b := buf[..];
    var c := Strchr(WHITESPACE, buf[s]);
    while c.Some?
      invariant i <= s <= |t| && SpacesEnd(t, s) == SpacesEnd(t, i)
      invariant buf[..] == b[..i] + Nuls(s - i) + b[s..]
      invariant c.Some? <==> buf[s] in WHITESPACE
      decreases |t| - s
    {
      assert buf[s] == b[s] && s < |t| && b[s] == t[s];
      OneMore(b, i, s, Nuls(s - i), '\0');
      ghost var was := buf[..];
      buf[s] := '\0';
      assert buf[..] == was[s := '\0'];
      assert Nuls(s - i) + ['\0'] == Nuls(s + 1 - i);
      s := s + 1;
      c := Strchr(WHITESPACE, buf[s]);
    }
  }

  lemma OneMore(b: string, s: nat, e: nat, w: string, c: char)
    requires s <= e < |b| && |w| == e - s
    ensures (b[..s] + w + b[e..])[e := c] == b[..s] + (w + [c]) + b[e + 1..]
  {
  }

  lemma EmptyWord(t: CString, s: nat)
    requires s <= |t|
    ensures Word(t[s..s]) == ""
  {
  }

  lemma WordGrows(t: CString, s: nat, e: nat)
    requires s <= e < |t|
    ensures Word(t[s..e + 1]) == Word(t[s..e]) + [if t[e] == '"' then ' ' else t[e]]
  {
  }

  /** What lies ahead of the place reached is the text. */
  lemma Ahead(c: string, b: string, t: CString, s: nat, e: nat, w: string)
    requires s <= e <= |t| < |b| && |w| == e - s && c == b[..s] + w + b[e..]
    requires b[s..|t|] == t[s..] && b[|t|] == '\0'
    ensures |c| == |b| && c[e] == b[e] == At(t, e)
  {
    if e < |t| { assert b[e] == b[s..|t|][e - s] == t[s..][e - s] == t[e]; }
  }

  lemma WordEndStep(t: CString, i: nat, quoted: bool)
    requires i <= |t|
    ensures WordEnd(t, i, quoted) ==
            if i == |t| || (!quoted && (Space(t[i]) || Symbol(t[i]))) then i
            else WordEnd(t, i + 1, if t[i] == '"' then !quoted else quoted)
  {
  }

  /** Blanks for the quotes of the word that starts at place `s`. */
  method CutWord(buf: array<char>, s: nat, ghost t: CString) returns (e: nat)
    requires s <= |t| < buf.Length && buf[s..|t|] == t[s..] && buf[|t|] == '\0'
    modifies buf
    ensures e == WordEnd(t, s, false) && buf[..] == old(buf[..s]) + Word(t[s..e]) + old(buf[e..])
  {
    hide Word, Space, Symbol, WordEnd;
    e := s;
    EmptyWord(t, s);
    ghost var b := buf[..];
    assert b[s..|t|] == t[s..] && b[|t|] == '\0';
    var flag := false;
    var stop := StopsWord(buf[e], flag);
    while !stop
      invariant s <= e <= |t| && WordEnd(t, e, flag) == WordEnd(t, s, false)
      invariant buf[..] == b[..s] + Word(t[s..e]) + b[e..]
      invariant stop <==> e == |t| || (!flag && (Space(t[e]) || Symbol(t[e])))
      decreases |t| - e
    {
      Ahead(buf[..], b, t, s, e, Word(t[s..e]));
      ghost var was := buf[..];
      WordGrows(t, s, e);
      WordEndStep(t, e, flag);
      OneMore(b, s, e, Word(t[s..e]), if t[e] == '"' then ' ' else t[e]);
      if buf[e] == '"' {
        buf[e] := ' ';
        flag := !flag;
      }
      assert buf[..] == was[e := if t[e] == '"' then ' ' else t[e]];
      assert buf[..] == b[..s] + Word(t[s..e + 1]) + b[e + 1..];
      e := e + 1;
      Ahead(buf[..], b, t, s, e, Word(t[s..e]));
      stop := StopsWord(buf[e], flag);
    }
    WordEndStep(t, e, flag);
  }

  /** The loop condition of a word, turned round. */
  method StopsWord(c: char, flag: bool) returns (stop: bool)
    ensures stop <==> c == '\0' || (!flag && (Space(c) || Symbol(c)))
  {
    if c == '\0' || flag { return c == '\0'; }
    var found := Strchr(WHITESPACE + SYMBOLS, c);
    return found.Some?;
  }

  /** The place that a pointer into the command stands for; NULL is the end. */
  function Place(t: CString, p: Option<nat>): nat {
    if p.Some? then p.value else |t|
  }

  /** The token that starts at place `s`. */
  method TakeToken(buf: array<char>, s: nat, ghost t: CString) returns (token: char, e: nat)
    requires s < |t| < buf.Length && buf[s..|t|] == t[s..] && buf[|t|] == '\0' && !Space(t[s])
    modifies buf
    ensures Next(t, s) == Token(token, s, e)
    ensures buf[..] == old(buf[..s]) + (if token == 'w' then Word(t[s..e]) else Nuls(1)) + old(buf[e..])
  {
    assert buf[s] == t[s] && 'w' !in SYMBOLS;
    token := 'w';
    var symbol := Strchr(SYMBOLS, buf[s]);
    if symbol.Some? {
      token := buf[s];
      buf[s] := '\0';
      e := s + 1;
    } else {
      e := CutWord(buf, s, t);
    }
  }

  lemma PieceIs(t: CString, i: nat, s: nat, token: char, e: nat)
    requires i <= s < |t| && s == SpacesEnd(t, i) && Next(t, s) == Token(token, s, e)
    ensures Next(t, i) == Token(token, s, e)
    ensures Piece(t, i) == Nuls(s - i) + if token == 'w' then Word(t[s..e]) else Nuls(1)
  {
  }

  /** `gettoken`: the token is that of the lexer on the text as it was given, whatever earlier calls have cut up. */
  method GetToken(buf: array<char>, p1: Option<nat>, ghost t: CString)
    returns (token: char, p1': Option<nat>, p2: nat)
    requires Reading(buf[..], t, Place(t, p1))
    modifies buf
    ensures var r := Next(t, Place(t, p1));
      if r.End? then token == '\0' && p1' == p1 && buf[..|t|] == Cut(t, 0)
      else token == r.kind && p2 == r.start && Place(t, p1') == r.end && (p1'.None? <==> r.end == |t|)
           && Reading(buf[..], t, r.end)
    ensures buf[|t|..] == old(buf[|t|..])
  {
    hide Cut, Piece, Nuls, Word, WordEnd, Next, SpacesEnd, Reading, Boundary, Space, Symbol;
    token, p1', p2 := '\0', p1, 0;
    ReadingIs(buf[..], t, Place(t, p1));
    if p1.None? {
      AtTheEnd(buf[..], t);
      return;
    }
    ghost var b, i := buf[..], p1.value;
    var s := SkipSpaces(buf, p1.value, t);
    AfterSpaces(b, buf[..], t, i, s);
    if buf[s] == '\0' {
      ReadingEnds(b, buf[..], t, i);
      return;
    }
    p2 := s;
    ghost var c := buf[..];
    token, s := TakeToken(buf, s, t);
    TokenTaken(b, c, buf[..], t, i, p2, token, s);
    p1' := if buf[s] != '\0' then Some(s) else None;
  }

  /** The two changes that a call makes to the buffer `b`: to `c`, and from there to `d`. */
  lemma TokenTaken(b: string, c: string, d: string, t: CString, i: nat, s: nat, token: char, e: nat)
    requires Reading(b, t, i) && i <= s < |t| && s == SpacesEnd(t, i) && Next(t, s) == Token(token, s, e)
    requires c == b[..i] + Nuls(s - i) + b[s..] && |c| == |b|
    requires d == c[..s] + (if token == 'w' then Word(t[s..e]) else Nuls(1)) + c[e..]
    ensures Next(t, i) == Token(token, s, e) && s < e <= |t| && |d| == |b|
    ensures Reading(d, t, e) && d[|t|..] == b[|t|..] && (d[e] == '\0' <==> e == |t|)
  {
    hide Cut, Piece, Nuls, Word, WordEnd, SpacesEnd, Reading, Boundary, Space, Symbol;
    ReadingIs(b, t, i);
    PieceIs(t, i, s, token, e);
    assert |if token == 'w' then Word(t[s..e]) else Nuls(1)| == e - s by { TokenLength(t, s, token, e); }
    Sewn(b, i, s, e, Nuls(s - i), if token == 'w' then Word(t[s..e]) else Nuls(1));
    ReadingMoves(b, d, t, i);
    ReadingAt(d, t, e);
    assert d[|t|..] == d[e..][|t| - e..] && b[|t|..] == b[e..][|t| - e..];
  }

  lemma TokenLength(t: CString, s: nat, token: char, e: nat)
    requires s < |t| && Next(t, s) == Token(token, s, e)
    ensures s < e <= |t| && token != '\0' && (token != 'w' ==> e == s + 1)
  {
  }

  lemma Sewn(b: string, i: nat, s: nat, e: nat, first: string, second: string)
    requires i <= s <= e <= |b| && |first| == s - i && |second| == e - s
    ensures var c := b[..i] + first + b[s..]; c[..s] + second + c[e..] == b[..i] + (first + second) + b[e..]
    ensures var c := b[..i] + first + b[s..]; |c| == |b| && c[e..] == b[e..]
  {
  }

  lemma AfterSpaces(b: string, c: string, t: CString, i: nat, s: nat)
    requires Reading(b, t, i) && s == SpacesEnd(t, i) && c == b[..i] + Nuls(s - i) + b[s..]
    ensures c[s..|t|] == t[s..] && c[|t|] == '\0' && c[|t|..] == b[|t|..]
    ensures c[s] == '\0' <==> s == |t|
    ensures s == |t| ==> Next(t, i).End?
  {
    ReadingIs(b, t, i);
    hide Cut, Reading;
    LaterPart(b, c, i, s, |t|, Nuls(s - i));
    SameText(b, t, i, s);
  }

  lemma LaterPart(b: string, c: string, i: nat, s: nat, n: nat, mid: string)
    requires i <= s <= n < |b| && |mid| == s - i && c == b[..i] + mid + b[s..]
    ensures |c| == |b| && c[s..n] == b[s..n] && c[n..] == b[n..] && c[n] == b[n] && c[s] == b[s]
  {
  }

  lemma SameText(b: string, t: CString, i: nat, s: nat)
    requires i <= s <= |t| < |b| && b[i..|t|] == t[i..]
    ensures b[s..|t|] == t[s..] && (s < |t| ==> b[s] == t[s])
  {
    assert b[s..|t|] == b[i..|t|][s - i..];
    assert t[s..] == t[i..][s - i..];
    assert s < |t| ==> b[s] == b[s..|t|][0] && t[s] == t[s..][0];
  }

  lemma AtTheEnd(b: string, t: CString)
    requires Reading(b, t, |t|)
    ensures Next(t, |t|).End? && b[..|t|] == Cut(t, 0)
  {
  }

  // ----- words --------------------------------------------------------------------------------------------------

  /** In the cut-up text the word `r` stands alone: with blanks for its quotes, and a terminator behind it. */
  ghost predicate Stands(t: CString, r: Token) {
    && r.Token? && r.start <= r.end <= |t|
    && Cut(t, 0)[r.start..r.end] == Word(t[r.start..r.end])
    && (r.end < |t| ==> Cut(t, 0)[r.end] == '\0')
  }

  lemma StandsIs(t: CString, r: Token)
    requires Stands(t, r)
    ensures r.Token? && r.start <= r.end <= |t|
    ensures Cut(t, 0)[r.start..r.end] == Word(t[r.start..r.end]) && (r.end < |t| ==> Cut(t, 0)[r.end] == '\0')
  {
  }

  /**
   * The token loop of `runcmd`.  Whenever the command is run, every word gathered is a string of its own; what the
   * redirections open is the operand together with all the text behind it.
   */
  method Gather(buf: array<char>, cmd: Option<nat>, opens: Opens, ghost t: CString)
    returns (argv: seq<nat>, files: seq<(char, string)>, stop: Stop, p: Option<nat>, ghost words: seq<Token>)
    requires Reading(buf[..], t, Place(t, cmd))
    modifies buf
    ensures Gathered(t, Place(t, cmd), [], [], opens) == Command(words, files, stop, Place(t, p))
    ensures |argv| == |words| <= EXEC_MAX_ARG_NUM
    ensures forall k {:trigger words[k]} {:trigger argv[k]} ::
      0 <= k < |words| ==> words[k].Token? && argv[k] == words[k].start
    ensures stop == RunIt || stop == PipeTo || stop == Sequence ==>
      forall k {:trigger words[k]} :: 0 <= k < |words| ==> HoldsWord(buf[..], t, words[k])
  {
    hide Cut, Next, Boundary, Reading, Stands, HoldsWord;
    argv, files, words := [], [], [];
    p := cmd;
    ReadingIs(buf[..], t, Place(t, p));
    while true
      invariant Reading(buf[..], t, Place(t, p)) && Place(t, p) <= |t|
      invariant Gathered(t, Place(t, p), words, files, opens) == Gathered(t, Place(t, cmd), [], [], opens)
      invariant |argv| == |words| <= EXEC_MAX_ARG_NUM
      invariant forall k {:trigger words[k]} :: 0 <= k < |words| ==>
        words[k].Token? && Stands(t, words[k]) && words[k].end <= Place(t, p) && argv[k] == words[k].start
      decreases |t| - Place(t, p)
    {
      ghost var i, was := Place(t, p), buf[..];
      ReadingIs(was, t, i);
      var token, start;
      token, p, start := GetToken(buf, p, t);
      if token == '\0' {
        stop := RunIt;
        assert buf[|t|] == buf[|t|..][0] == was[|t|..][0];
        assert Cut(t, 0)[..|t|] == Cut(t, 0);
        WordsAreStrings(buf[..], t, words, i, |t|);
        break;
      }
      ReadingIs(buf[..], t, Place(t, p));
      if token == 'w' {
        if |argv| == EXEC_MAX_ARG_NUM {
          stop := TooMany;
          break;
        }
        WordStands(t, i);
        argv, words := argv + [start], words + [Next(t, i)];
      } else if token == '<' || token == '>' {
        ghost var j := Place(t, p);
        var operand;
        operand, p, start := GetToken(buf, p, t);
        if operand != 'w' {
          stop := NoOperand;
          break;
        }
        WordStands(t, j);
        OperandIsWordIff(buf[..], t, Next(t, j));
        var name := StringAt(buf[..], start);
        files := files + [(token, name)];
        if !opens(token, name) {
          stop := NotOpened;
          break;
        }
      } else {
        stop := if token == '|' then PipeTo else if token == ';' then Sequence else BadToken;
        WordsAreStrings(buf[..], t, words, i, Place(t, p));
        break;
      }
    }
  }

  // ----- all tokens ---------------------------------------------------------------------------------------------

  /** Calls `gettoken` until it returns 0. */
  method TakeAll(buf: array<char>, cmd: Option<nat>, ghost t: CString)
    returns (kinds: string, starts: seq<nat>, ghost ts: seq<Token>)
    requires Reading(buf[..], t, Place(t, cmd))
    modifies buf
    ensures ts == Tokens(t, Place(t, cmd)) && |kinds| == |starts| == |ts|
    ensures forall n {:trigger ts[n]} :: 0 <= n < |ts| ==>
      ts[n].Token? && kinds[n] == ts[n].kind && starts[n] == ts[n].start && (ts[n].kind == 'w' ==> Stands(t, ts[n]))
    ensures buf[..|t|] == Cut(t, 0) && buf[|t|..] == old(buf[|t|..])
  {
    hide Cut, Next, Boundary, Reading, Stands;
    kinds, starts, ts := "", [], [];
    var p := cmd;
    ReadingIs(buf[..], t, Place(t, p));
    while true
      invariant Reading(buf[..], t, Place(t, p)) && Place(t, p) <= |t| < buf.Length
      invariant ts + Tokens(t, Place(t, p)) == Tokens(t, Place(t, cmd)) && |kinds| == |starts| == |ts|
      invariant forall n {:trigger ts[n]} :: 0 <= n < |ts| ==>
        ts[n].Token? && kinds[n] == ts[n].kind && starts[n] == ts[n].start && (ts[n].kind == 'w' ==> Stands(t, ts[n]))
      invariant buf[|t|..] == old(buf[|t|..])
      decreases |t| - Place(t, p)
    {
      ghost var i := Place(t, p);
      ReadingIs(buf[..], t, i);
      var token, start;
      token, p, start := GetToken(buf, p, t);
      if token == '\0' { break; }
      ReadingIs(buf[..], t, Place(t, p));
      if token == 'w' { WordStands(t, i); }
      kinds, starts, ts := kinds + [token], starts + [start], ts + [Next(t, i)];
    }
  }

  /**
   * Taking all tokens of a command yields the tokens of the lexer on its text; and when there are no more, every word
   * among them, what follows `<` or `>` included, is a string of its own in the buffer.
   */
  method Tokenize(buf: array<char>, ghost t: CString) returns (kinds: string, starts: seq<nat>, ghost ts: seq<Token>)
    requires |t| < buf.Length && buf[..|t|] == t && buf[|t|] == '\0'
    modifies buf
    ensures ts == Tokens(t, 0) && |kinds| == |starts| == |ts|
    ensures forall n {:trigger ts[n]} :: 0 <= n < |ts| ==>
      ts[n].Token? && kinds[n] == ts[n].kind && starts[n] == ts[n].start
    ensures forall n {:trigger ts[n]} :: 0 <= n < |ts| && kinds[n] == 'w' ==> HoldsWord(buf[..], t, ts[n])
    ensures buf[..|t|] == Cut(t, 0) && buf[|t|..] == old(buf[|t|..])
  {
    hide Cut, Stands, Reading;
    ghost var was := buf[..];
    StartReading(was, t);
    kinds, starts, ts := TakeAll(buf, Some(0), t);
    assert buf[|t|] == buf[|t|..][0] == was[|t|..][0];
    assert Cut(t, 0)[..|t|] == Cut(t, 0);
    forall n | 0 <= n < |ts| && kinds[n] == 'w'
      ensures HoldsWord(buf[..], t, ts[n])
    {
      StandsIs(t, ts[n]);
      WordIsString(buf[..], t, ts[n], |t|);
    }
  }
}

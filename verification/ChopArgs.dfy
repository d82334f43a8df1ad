/** chopup_args: splits a line into arguments in place; a token may be enclosed in quotes. */
module ChopArgs {
  import opened CStrings
  import opened Options

  predicate White(c: char) { c == ' ' || c == '\t' || c == '\n' }

  predicate Quote(c: char) { c == '\'' || c == '"' }

  /** The first position from `i` on that is not white space, or the end. */
  function SkipWhite(s: string, i: nat): (j: nat)
    requires i <= |s|
    ensures i <= j <= |s| && (forall k :: i <= k < j ==> White(s[k])) && (j < |s| ==> !White(s[j]))
    decreases |s| - i
  {
    if i < |s| && White(s[i]) then SkipWhite(s, i + 1) else i
  }

  /** The first white space from `i` on, or the end. */
  function FindWhite(s: string, i: nat): (j: nat)
    requires i <= |s|
    ensures i <= j <= |s| && (forall k :: i <= k < j ==> !White(s[k])) && (j < |s| ==> White(s[j]))
    decreases |s| - i
  {
    if i < |s| && !White(s[i]) then FindWhite(s, i + 1) else i
  }

  /** The first character `q` from `i` on, or the end. */
  function FindChar(s: string, q: char, i: nat): (j: nat)
    requires i <= |s|
    ensures i <= j <= |s| && (forall k :: i <= k < j ==> s[k] != q) && (j < |s| ==> s[j] == q)
    decreases |s| - i
  {
    if i < |s| && s[i] != q then FindChar(s, q, i + 1) else i
  }

  /** A token: the text between two positions. */
  datatype Token = Token(start: nat, end: nat)

  /** What is found at a position: nothing more, a quote that is never closed, or one token and the
      position behind it. */
  datatype Step = Nothing | Unclosed | One(t: Token, next: nat)

  function Next(s: string, i: nat): (r: Step)
    requires i <= |s|
    ensures r.One? ==> i <= r.t.start <= r.t.end <= |s| && i < r.next <= |s|
                       && r.next == (if r.t.end == |s| then |s| else r.t.end + 1)
  {
    var b := SkipWhite(s, i);
    if b == |s| then Nothing
    else if Quote(s[b]) then
      var e := FindChar(s, s[b], b + 1);
      if e == |s| then Unclosed else One(Token(b + 1, e), e + 1)
    else
      var e := FindWhite(s, b);
      One(Token(b, e), if e == |s| then e else e + 1)
  }

  /** The tokens from position `i` on; None when a quote that opens a token is never closed. */
  function Tokens(s: string, i: nat): (r: Option<seq<Token>>)
    requires i <= |s|
    ensures r.Some? ==> forall k :: 0 <= k < |r.value| ==> i <= r.value[k].start <= r.value[k].end <= |s|
    decreases |s| - i
  {
    match Next(s, i)
    case Nothing => Some([])
    case Unclosed => None
    case One(t, next) =>
      var more := Tokens(s, next);
      if more.None? then None else Some([t] + more.value)
  }

  /** The arguments of a line. */
  function Arguments(s: string): Option<seq<string>> {
    var r := Tokens(s, 0);
    if r.None? then None
    else Some(seq(|r.value|, k requires 0 <= k < |r.value| => s[r.value[k].start..r.value[k].end]))
  }

  // ---- writing a line of arguments ----

  /** An argument can be written unless it contains both quotes. */
  predicate Writable(a: string) { '\'' !in a || '"' !in a }

  function Quoted(a: string): string {
    var q := if '\'' in a then '"' else '\'';
    [q] + a + [q]
  }

  function Line(args: seq<string>): string {
    if args == [] then [] else Quoted(args[0]) + [' '] + Line(args[1..])
  }

  lemma SkipOne(s: string, i: nat)
    requires i < |s| && White(s[i])
    ensures Next(s, i) == Next(s, i + 1) && Tokens(s, i) == Tokens(s, i + 1)
  {
    assert SkipWhite(s, i) == SkipWhite(s, i + 1);
  }

  lemma QuotedToken(s: string, p: nat, a: string, rest: string)
    requires p <= |s| && s[p..] == Quoted(a) + rest && Writable(a)
    ensures p + |a| + 2 <= |s| && s[p + |a| + 2..] == rest
    ensures Next(s, p) == One(Token(p + 1, p + 1 + |a|), p + |a| + 2)
    ensures s[p + 1..p + 1 + |a|] == a
  {
    var q, e := Quoted(a)[0], p + 1 + |a|;
    assert Quote(q) && q !in a && Quoted(a) == [q] + a + [q];
    hide SkipWhite, FindChar, FindWhite, Quoted;
    QuotedPlaces(s, p, q, a, rest);
    FindCharIs(s, q, p + 1, e);
    assert SkipWhite(s, p) == p;
  }

  lemma QuotedPlaces(s: string, p: nat, q: char, a: string, rest: string)
    requires p <= |s| && s[p..] == [q] + a + [q] + rest
    ensures p + |a| + 2 <= |s| && s[p] == q && s[p + 1..p + 1 + |a|] == a
    ensures s[p + |a| + 1] == q && s[p + |a| + 2..] == rest
  {
    var tail := s[p..];
    assert tail[0] == s[p] && tail[|a| + 1] == s[p + |a| + 1];
    assert s[p + 1..p + 1 + |a|] == tail[1..1 + |a|] == a;
    assert s[p + |a| + 2..] == tail[|a| + 2..] == rest;
  }

  lemma FindCharIs(s: string, q: char, i: nat, e: nat)
    requires i <= e < |s| && q !in s[i..e] && s[e] == q
    ensures FindChar(s, q, i) == e
  {
    assert forall k :: i <= k < e ==> s[k] == s[i..e][k - i] && s[k] != q;
  }

  /** The tokens from `p` on are these texts. */
  ghost predicate TokensAre(s: string, p: nat, args: seq<string>)
    requires p <= |s|
  {
    var r := Tokens(s, p);
    r.Some? && |r.value| == |args| && forall k :: 0 <= k < |args| ==> s[r.value[k].start..r.value[k].end] == args[k]
  }

  lemma OneMoreToken(s: string, p: nat, a: string, t: Token, next: nat, rest: nat, args: seq<string>)
    requires p <= |s| && Next(s, p) == One(t, next) && s[t.start..t.end] == a
    requires rest <= |s| && Tokens(s, next) == Tokens(s, rest) && TokensAre(s, rest, args)
    ensures TokensAre(s, p, [a] + args)
  {
    hide Next;
  }

  lemma {:induction false} LineTokens(s: string, p: nat, args: seq<string>)
    requires p <= |s| && s[p..] == Line(args) && forall k :: 0 <= k < |args| ==> Writable(args[k])
    ensures TokensAre(s, p, args)
    decreases |args|
  {
    hide Next, Quoted, Tokens, TokensAre, Writable, Line;
    LineUnfolds(args);
    if args == [] {
      EmptyLine(s, p);
    } else {
      var a, n, more := args[0], p + |args[0]| + 2, args[1..];
      assert Line(args) == Quoted(a) + ([' '] + Line(more));
      QuotedToken(s, p, a, [' '] + Line(more));
      assert s[n..][0] == s[n] && s[n + 1..] == s[n..][1..] == Line(more);
      SkipOne(s, n);
      LineTokens(s, n + 1, more);
      OneMoreToken(s, p, a, Token(p + 1, p + 1 + |a|), n, n + 1, more);
    }
  }

  lemma LineUnfolds(args: seq<string>)
    ensures args == [] ==> Line(args) == []
    ensures args != [] ==> Line(args) == Quoted(args[0]) + [' '] + Line(args[1..]) && args == [args[0]] + args[1..]
  {
  }

  lemma EmptyLine(s: string, p: nat)
    requires p <= |s| && s[p..] == []
    ensures TokensAre(s, p, [])
  {
    NothingAtEnd(s);
  }

  /** Writing arguments between quotes and splitting the line gives the arguments back. */
  lemma ArgumentsOfLine(args: seq<string>)
    requires forall k :: 0 <= k < |args| ==> Writable(args[k])
    ensures Arguments(Line(args)) == Some(args)
  {
    hide Tokens, Line, Writable;
    assert Line(args)[0..] == Line(args);
    LineTokens(Line(args), 0, args);
    assert Arguments(Line(args)).value == args;
  }

  // ---- lines of plain and quoted arguments ----

  ghost predicate IsGap(g: string) {
    forall i :: 0 <= i < |g| ==> g[i] == ' ' || g[i] == '\t' || g[i] == '\n'
  }

  /** A plain word: it does not begin with a quote and has none of the three separators in it. Quotes
      further on and all other characters belong to it. */
  ghost predicate IsWord(w: string) {
    w != "" && w[0] != '\'' && w[0] != '"' && forall i :: 0 <= i < |w| ==> w[i] != ' ' && w[i] != '\t' && w[i] != '\n'
  }

  /** An argument with what separates it from the one before. */
  datatype Piece = Piece(gap: string, arg: string, quoted: bool)

  function PieceText(p: Piece): string { p.gap + if p.quoted then Quoted(p.arg) else p.arg }

  function PiecesText(ps: seq<Piece>): string {
    if ps == [] then [] else PieceText(ps[0]) + PiecesText(ps[1..])
  }

  function ArgsOf(ps: seq<Piece>): (args: seq<string>)
    ensures |args| == |ps| && forall k :: 0 <= k < |ps| ==> args[k] == ps[k].arg
  {
    seq(|ps|, k requires 0 <= k < |ps| => ps[k].arg)
  }

  /** Only a plain word needs a gap behind it. */
  ghost predicate Separated(ps: seq<Piece>) {
    && (forall k :: 0 <= k < |ps| ==>
          IsGap(ps[k].gap) && if ps[k].quoted then Writable(ps[k].arg) else IsWord(ps[k].arg))
    && (forall k :: 1 <= k < |ps| && !ps[k - 1].quoted ==> ps[k].gap != "")
  }

  /** What is known about the characters when a text starts at `p`. */
  lemma StartsAt(s: string, p: nat, a: string, rest: string)
    requires p <= |s| && s[p..] == a + rest
    ensures p + |a| <= |s| && s[p + |a|..] == rest && s[p..p + |a|] == a
    ensures forall i :: p <= i < p + |a| ==> s[i] == a[i - p]
    ensures rest != "" ==> p + |a| < |s| && s[p + |a|] == rest[0]
    ensures rest == "" ==> p + |a| == |s|
  {
    var tail := s[p..];
    assert s[p + |a|..] == tail[|a|..] && s[p..p + |a|] == tail[..|a|];
    assert forall i :: p <= i < p + |a| ==> s[i] == tail[i - p];
    assert rest != "" ==> s[p + |a|] == tail[|a|];
  }

  lemma {:induction false} SkipWhites(s: string, p: nat, q: nat)
    requires p <= q <= |s| && forall i :: p <= i < q ==> White(s[i])
    ensures Tokens(s, p) == Tokens(s, q)
    decreases q - p
  {
    hide Tokens;
    if p < q {
      SkipOne(s, p);
      SkipWhites(s, p + 1, q);
    }
  }

  lemma SkipGap(s: string, p: nat, g: string, rest: string)
    requires p <= |s| && s[p..] == g + rest && IsGap(g)
    ensures p + |g| <= |s| && s[p + |g|..] == rest && Tokens(s, p) == Tokens(s, p + |g|)
  {
    hide Tokens;
    StartsAt(s, p, g, rest);
    SkipWhites(s, p, p + |g|);
  }

  lemma WordToken(s: string, p: nat, e: nat)
    requires p < e <= |s| && !Quote(s[p]) && (forall i :: p <= i < e ==> !White(s[i])) && (e < |s| ==> White(s[e]))
    ensures Next(s, p) == One(Token(p, e), if e == |s| then |s| else e + 1)
    ensures Tokens(s, if e == |s| then |s| else e + 1) == Tokens(s, e)
  {
    hide FindWhite, Tokens;
    assert SkipWhite(s, p) == p;
    FindWhiteIs(s, p, e);
    if e < |s| { SkipOne(s, e); }
  }

  lemma PlainToken(s: string, p: nat, w: string, rest: string)
    requires p <= |s| && s[p..] == w + rest && IsWord(w) && (rest != "" ==> IsGap(rest[..1]))
    ensures p + |w| <= |s| && s[p + |w|..] == rest && s[p..p + |w|] == w
    ensures Next(s, p) == One(Token(p, p + |w|), if rest == "" then |s| else p + |w| + 1)
    ensures Tokens(s, if rest == "" then |s| else p + |w| + 1) == Tokens(s, p + |w|)
  {
    hide Next, Tokens;
    StartsAt(s, p, w, rest);
    assert rest != "" ==> rest[..1][0] == rest[0];
    WordToken(s, p, p + |w|);
  }

  lemma FindWhiteIs(s: string, i: nat, e: nat)
    requires i <= e <= |s| && (forall k :: i <= k < e ==> !White(s[k])) && (e < |s| ==> White(s[e]))
    ensures FindWhite(s, i) == e
  {
  }

  /** A token and the arguments behind it, with a gap in front. */
  lemma GapToken(s: string, p: nat, q: nat, args: seq<string>)
    requires p <= |s| && q <= |s| && Tokens(s, p) == Tokens(s, q) && TokensAre(s, q, args)
    ensures TokensAre(s, p, args)
  {
  }

  lemma Regroup(g: string, b: string, t: string, e: string)
    ensures ((g + b) + t) + e == g + (b + (t + e))
  {
  }

  lemma SeparatedTail(ps: seq<Piece>)
    requires ps != [] && Separated(ps)
    ensures Separated(ps[1..]) && ArgsOf(ps) == [ps[0].arg] + ArgsOf(ps[1..])
    ensures IsGap(ps[0].gap) && if ps[0].quoted then Writable(ps[0].arg) else IsWord(ps[0].arg)
    ensures |ps| > 1 ==> IsGap(ps[1].gap) && (!ps[0].quoted ==> ps[1].gap != "")
  {
    hide IsWord, Writable, IsGap;
    var tail := ps[1..];
    assert forall k :: 0 <= k < |tail| ==> tail[k] == ps[k + 1];
  }

  lemma PiecesUnfold(ps: seq<Piece>, end: string)
    requires ps != [] && Separated(ps) && IsGap(end)
    ensures Separated(ps[1..]) && ArgsOf(ps) == [ps[0].arg] + ArgsOf(ps[1..])
    ensures IsGap(ps[0].gap) && if ps[0].quoted then Writable(ps[0].arg) else IsWord(ps[0].arg)
    ensures var rest := PiecesText(ps[1..]) + end;
            && PiecesText(ps) + end == ps[0].gap + ((if ps[0].quoted then Quoted(ps[0].arg) else ps[0].arg) + rest)
            && (!ps[0].quoted && rest != "" ==> IsGap(rest[..1]))
  {
    hide Separated, Quoted, IsWord, Writable, ArgsOf;
    var p, tail := ps[0], ps[1..];
    SeparatedTail(ps);
    Regroup(p.gap, if p.quoted then Quoted(p.arg) else p.arg, PiecesText(tail), end);
    if tail == [] {
      assert PiecesText(tail) + end == end;
    } else if !p.quoted {
      hide IsGap;
      assert tail[0] == ps[1];
      FirstGap(tail, end);
    }
  }

  lemma FirstGap(ps: seq<Piece>, end: string)
    requires ps != [] && IsGap(ps[0].gap) && ps[0].gap != ""
    ensures PiecesText(ps) + end != "" && IsGap((PiecesText(ps) + end)[..1])
  {
    hide Quoted;
    assert (PiecesText(ps) + end)[0] == ps[0].gap[0];
  }

  lemma NoPieces(s: string, p: nat, end: string)
    requires p <= |s| && s[p..] == end && IsGap(end)
    ensures TokensAre(s, p, [])
  {
    assert s[p..] == end + "";
    SkipGap(s, p, end, "");
    assert s[p + |end|..] == [];
    EmptyLine(s, p + |end|);
    hide Tokens;
  }

  lemma NoText(end: string)
    ensures PiecesText([]) + end == end && ArgsOf([]) == []
  {
  }

  lemma {:induction false} PiecesTokens(s: string, p: nat, ps: seq<Piece>, end: string)
    requires p <= |s| && s[p..] == PiecesText(ps) + end && Separated(ps) && IsGap(end)
    ensures TokensAre(s, p, ArgsOf(ps))
    decreases |ps|
  {
    hide Next, Quoted, Tokens, TokensAre, Writable, PiecesText, Separated, IsGap, IsWord;
    if ps == [] {
      NoText(end);
      NoPieces(s, p, end);
    } else {
      var e, tail := ps[0], ps[1..];
      var rest := PiecesText(tail) + end;
      PiecesUnfold(ps, end);
      var q := p + |e.gap|;
      SkipGap(s, p, e.gap, (if e.quoted then Quoted(e.arg) else e.arg) + rest);
      if e.quoted {
        QuotedToken(s, q, e.arg, rest);
        PiecesTokens(s, q + |e.arg| + 2, tail, end);
        OneMoreToken(s, q, e.arg, Token(q + 1, q + 1 + |e.arg|), q + |e.arg| + 2, q + |e.arg| + 2, ArgsOf(tail));
      } else {
        PlainToken(s, q, e.arg, rest);
        PiecesTokens(s, q + |e.arg|, tail, end);
        OneMoreToken(s, q, e.arg, Token(q, q + |e.arg|), if rest == "" then |s| else q + |e.arg| + 1, q + |e.arg|,
                     ArgsOf(tail));
      }
      GapToken(s, p, q, ArgsOf(ps));
    }
  }

  /** A line of plain words and quoted arguments, separated by any blanks, tabs and newlines, is split
      into them. */
  lemma ArgumentsOfPieces(ps: seq<Piece>, end: string)
    requires Separated(ps) && IsGap(end)
    ensures Arguments(PiecesText(ps) + end) == Some(ArgsOf(ps))
  {
    var s := PiecesText(ps) + end;
    hide Tokens, PiecesText, Separated, IsGap;
    assert s[0..] == s;
    PiecesTokens(s, 0, ps, end);
    assert Arguments(s).value == ArgsOf(ps);
  }

  /** Tokens do not overlap, so the pointers strictly increase. */
  lemma {:induction false} TokensIncrease(s: string, i: nat, j: nat, k: nat)
    requires i <= |s| && Tokens(s, i).Some? && j < k < |Tokens(s, i).value|
    ensures Tokens(s, i).value[j].end < Tokens(s, i).value[k].start
    decreases |s| - i
  {
    hide SkipWhite, FindWhite, FindChar, Quote;
    var n := Next(s, i).next;
    NothingAtEnd(s);
    if j > 0 { TokensIncrease(s, n, j - 1, k - 1); }
  }

  lemma NothingAtEnd(s: string)
    ensures Tokens(s, |s|) == Some([])
  {
  }

  // ---- in place ----

  const NULL := -1

  /** The growing pointer array. */
  class Args {
    var data: array<int>

    constructor ()
      ensures data.Length == 0 && fresh(data)
    {
      data := new int[0];
    }
  }

  /** The pointers set so far; the other slots are null. */
  ghost predicate Slots(data: seq<int>, done: seq<Token>) {
    |done| <= |data|
    && (forall k :: 0 <= k < |done| ==> data[k] == done[k].start)
    && forall k :: |done| <= k < |data| ==> data[k] == NULL
  }

  /** The tokens found so far are terminated in the buffer, and from `p` on it is untouched. */
  ghost predicate Cut(buf: seq<char>, s: string, done: seq<Token>, p: nat) {
    && |buf| == |s| + 1 && p <= |s| && buf[p..] == s[p..] + [NUL]
    && forall k :: 0 <= k < |done| ==>
         done[k].start <= done[k].end <= |s| && (done[k].end < p || done[k].end == p == |s|)
         && buf[done[k].start..done[k].end] == s[done[k].start..done[k].end] && buf[done[k].end] == NUL
  }

  method SkipWhiteInPlace(buf: array<char>, ghost s: string, p0: nat) returns (p: nat)
    requires p0 <= |s| && buf.Length == |s| + 1 && NulFree(s) && buf[p0..] == s[p0..] + [NUL]
    ensures p == SkipWhite(s, p0)
  {
    p := p0;
    while buf[p] != NUL && White(buf[p])
      invariant p0 <= p <= |s| && SkipWhite(s, p) == SkipWhite(s, p0)
      decreases |s| - p
    {
      assert buf[p] == buf[p0..][p - p0] == s[p];
      p := p + 1;
    }
    assert buf[p] == buf[p0..][p - p0];
  }

  method FindWhiteInPlace(buf: array<char>, ghost s: string, p0: nat) returns (p: nat)
    requires p0 <= |s| && buf.Length == |s| + 1 && NulFree(s) && buf[p0..] == s[p0..] + [NUL]
    ensures p == FindWhite(s, p0)
  {
    p := p0;
    while buf[p] != NUL && !White(buf[p])
      invariant p0 <= p <= |s| && FindWhite(s, p) == FindWhite(s, p0)
      decreases |s| - p
    {
      assert buf[p] == buf[p0..][p - p0];
      p := p + 1;
    }
    assert buf[p] == buf[p0..][p - p0];
  }

  method FindCharInPlace(buf: array<char>, ghost s: string, q: char, p0: nat) returns (p: nat)
    requires p0 <= |s| && buf.Length == |s| + 1 && NulFree(s) && buf[p0..] == s[p0..] + [NUL]
    ensures p == FindChar(s, q, p0)
  {
    p := p0;
    while buf[p] != NUL && buf[p] != q
      invariant p0 <= p <= |s| && FindChar(s, q, p) == FindChar(s, q, p0)
      decreases |s| - p
    {
      assert buf[p] == buf[p0..][p - p0];
      p := p + 1;
    }
    assert buf[p] == buf[p0..][p - p0];
  }

  /** Room for one more pointer: the array grows by 20, keeping its entries, and is filled with nulls. */
  method MakeRoom(arg: Args, num: nat, ghost done: seq<Token>)
    requires Slots(arg.data[..], done) && num == |done|
    modifies arg
    ensures Slots(arg.data[..], done) && arg.data.Length > num && arg.data.Length >= old(arg.data.Length)
    ensures arg.data == old(arg.data) || fresh(arg.data)
  {
    if num >= arg.data.Length {
      var tlen := arg.data.Length + 20;
      var tmp := new int[tlen](i reads arg, arg.data => if 0 <= i < arg.data.Length then arg.data[i] else NULL);
      arg.data := tmp;
    }
  }

  lemma TokensStep(s: string, p: nat, done: seq<Token>)
    requires p <= |s|
    ensures match Next(s, p)
            case Nothing => Prepend(done, Tokens(s, p)) == Some(done)
            case Unclosed => Tokens(s, p).None?
            case One(t, next) => Prepend(done, Tokens(s, p)) == Prepend(done + [t], Tokens(s, next))
  {
    hide Next;
    match Next(s, p)
    case Nothing => assert done + [] == done;
    case Unclosed =>
    case One(t, next) =>
      var more := Tokens(s, next);
      if more.Some? { assert done + ([t] + more.value) == done + [t] + more.value; }
  }

  /** Ending the token `t` at its end keeps the earlier tokens. */
  lemma CutOneMore(buf: seq<char>, s: string, done: seq<Token>, p: nat, t: Token)
    requires NulFree(s) && Cut(buf, s, done, p) && p <= t.start <= t.end <= |s| && (p == |s| ==> done == [])
    ensures Cut(buf[t.end := NUL], s, done + [t], if t.end == |s| then t.end else t.end + 1)
  {
    var buf', q := buf[t.end := NUL], if t.end == |s| then t.end else t.end + 1;
    assert forall i :: p <= i < |buf| ==> buf[i] == buf[p..][i - p] == (s[p..] + [NUL])[i - p];
    assert buf'[q..] == s[q..] + [NUL];
    var done' := done + [t];
    forall k | 0 <= k < |done'|
      ensures buf'[done'[k].start..done'[k].end] == s[done'[k].start..done'[k].end] && buf'[done'[k].end] == NUL
    {
      if k < |done| {
        assert done[k] == done'[k] && done[k].end < p;
        assert buf'[done[k].start..done[k].end] == buf[done[k].start..done[k].end];
      } else {
        assert buf'[t.start..t.end] == s[t.start..t.end];
      }
    }
  }

  /** One token: the pointer is stored, moved behind an opening quote, and the token is terminated. */
  method ChopToken(arg: Args, num: nat, buf: array<char>, ghost s: string, ghost done: seq<Token>, ghost p0: nat,
                   b: nat)
    returns (p: nat, ghost t: Token)
    requires NulFree(s) && p0 <= b < |s| && b == SkipWhite(s, p0) && Cut(buf[..], s, done, p0)
    requires Slots(arg.data[..], done) && num == |done| < arg.data.Length
    modifies buf, arg.data
    ensures Next(s, p0) == if p <= |s| then One(t, p) else Unclosed
    ensures p <= |s| ==> Slots(arg.data[..], done + [t]) && Cut(buf[..], s, done + [t], p)
    ensures p <= |s| + 1
  {
    hide Cut, Slots, SkipWhite, FindWhite, FindChar;
    ghost var slots := arg.data[..];
    CutUntouched(buf[..], s, done, p0);
    p := b;
    arg.data[num] := p;
    if buf[p] == '\'' || buf[p] == '"' {
      arg.data[num] := arg.data[num] + 1;
      p := EndQuoted(buf, s, done, p0, p);
    } else {
      p := EndPlain(buf, s, done, p0, p);
    }
    if Next(s, p0).One? {
      t := Next(s, p0).t;
      SlotsAdd(slots, done, t);
      assert arg.data[..] == slots[num := t.start];
    } else {
      t := Token(b, b);
    }
  }

  /** Scans for the closing quote and overwrites it. Without one the terminator is overwritten by
      itself and the pointer moves behind it. */
  method EndQuoted(buf: array<char>, ghost s: string, ghost done: seq<Token>, ghost p0: nat, b: nat) returns (p: nat)
    requires NulFree(s) && p0 <= b < |s| && b == SkipWhite(s, p0) && Cut(buf[..], s, done, p0)
    requires Quote(s[b])
    modifies buf
    ensures Next(s, p0).One? ==> p == Next(s, p0).next && Cut(buf[..], s, done + [Next(s, p0).t], p)
    ensures !Next(s, p0).One? ==> Next(s, p0).Unclosed? && p == |s| + 1
  {
    hide Cut, SkipWhite, FindChar;
    CutUntouched(buf[..], s, done, p0);
    if Next(s, p0).One? { CutOneMore(buf[..], s, done, p0, Next(s, p0).t); }
    var i := buf[b];
    p := FindCharInPlace(buf, s, i, b + 1);
    buf[p] := NUL;
    p := p + 1;
  }

  /** Scans for white space and overwrites it, unless the line ends. */
  method EndPlain(buf: array<char>, ghost s: string, ghost done: seq<Token>, ghost p0: nat, b: nat) returns (p: nat)
    requires NulFree(s) && p0 <= b < |s| && b == SkipWhite(s, p0) && Cut(buf[..], s, done, p0)
    requires !Quote(s[b])
    modifies buf
    ensures Next(s, p0).One? && p == Next(s, p0).next && Cut(buf[..], s, done + [Next(s, p0).t], p)
  {
    hide Cut, SkipWhite, FindWhite;
    CutUntouched(buf[..], s, done, p0);
    CutOneMore(buf[..], s, done, p0, Next(s, p0).t);
    p := FindWhiteInPlace(buf, s, b);
    if buf[p] == NUL {
      assert buf[..][p := NUL] == buf[..];
      p := p - 1;
    } else {
      buf[p] := NUL;
    }
    p := p + 1;
  }

  lemma SlotsAdd(data: seq<int>, done: seq<Token>, t: Token)
    requires Slots(data, done) && |done| < |data|
    ensures Slots(data[|done| := t.start], done + [t])
  {
  }

  lemma CutUntouched(buf: seq<char>, s: string, done: seq<Token>, p: nat)
    requires Cut(buf, s, done, p) && NulFree(s)
    ensures |buf| == |s| + 1 && p <= |s|
    ensures forall i :: p <= i <= |s| ==> buf[i] == (if i < |s| then s[i] else NUL) && buf[i..] == s[i..] + [NUL]
    ensures forall i :: p <= i <= |s| ==> (buf[i] == NUL <==> i == |s|)
  {
    assert forall i :: p <= i <= |s| ==> buf[i] == buf[p..][i - p] == (s[p..] + [NUL])[i - p];
    assert forall i :: 0 <= i < |s| ==> s[i] in s;
  }

  /** `over` is where the code goes on reading behind the terminator: exactly on the lines with a
      quote that opens a token and is never closed. */
  method ChopupArgs(arg: Args, buf: array<char>) returns (over: bool, argc: nat, argv: array<int>)
    requires buf.Length > 0 && buf[buf.Length - 1] == NUL && NulFree(buf[..buf.Length - 1])
    modifies arg, arg.data, buf
    ensures over <==> Arguments(old(buf[..buf.Length - 1])).None?
    ensures argv == arg.data && argv.Length >= old(arg.data.Length)
    ensures !over ==>
              var s := old(buf[..buf.Length - 1]);
              && argc == |Arguments(s).value| <= argv.Length
              && (forall k :: 0 <= k < argc ==> 0 <= argv[k] && CStr(buf[..], argv[k]) == Arguments(s).value[k])
              && (forall k :: 0 <= k < argc ==> argv[k] == Tokens(s, 0).value[k].start)
              && (forall k :: argc <= k < argv.Length ==> argv[k] == NULL)
  {
    ghost var s := buf[..buf.Length - 1];
    if arg.data.Length == 0 {
      arg.data := new int[20];
    }
    var data := arg.data;
    for i := 0 to data.Length
      invariant arg.data == data && forall k :: 0 <= k < i ==> data[k] == NULL
      invariant buf[..] == old(buf[..])
    {
      data[i] := NULL;
    }
    hide Tokens;
    over, argc := ChopLoop(arg, buf, s);
    argv := arg.data;
    if !over { TokensInBuffer(buf[..], s, Tokens(s, 0).value); }
  }

  method ChopLoop(arg: Args, buf: array<char>, ghost s: string) returns (over: bool, num: nat)
    requires NulFree(s) && buf[..] == s + [NUL]
    requires Slots(arg.data[..], [])
    modifies arg, arg.data, buf
    ensures arg.data.Length >= old(arg.data.Length)
    ensures over <==> Tokens(s, 0).None?
    ensures !over ==> num == |Tokens(s, 0).value| && Slots(arg.data[..], Tokens(s, 0).value)
                      && Cut(buf[..], s, Tokens(s, 0).value, |s|)
  {
    hide Tokens, Cut, Slots, SkipWhite, Next, Prepend;
    ghost var done: seq<Token> := [];
    var p := 0;
    over, num := false, 0;
    PrependNothing(Tokens(s, 0));
    NothingCut(s);
    while true
      invariant p <= |s| && num == |done| && arg.data.Length >= old(arg.data.Length)
      invariant arg.data == old(arg.data) || fresh(arg.data)
      invariant Slots(arg.data[..], done) && Cut(buf[..], s, done, p)
      invariant Tokens(s, 0) == Prepend(done, Tokens(s, p))
      decreases |s| - p
    {
      TokensStep(s, p, done);
      ghost var p0 := p;
      var more;
      p, more := FindToken(buf, s, done, p);
      if !more {
        CutToEnd(buf[..], s, done, p0);
        break;
      }
      MakeRoom(arg, num, done);
      ghost var t;
      var q;
      q, t := ChopToken(arg, num, buf, s, done, p0, p);
      if q >= buf.Length {
        return true, num;
      }
      p := q;
      done := done + [t];
      num := num + 1;
    }
  }

  /** Skips white space; at the terminator there is nothing more. */
  method FindToken(buf: array<char>, ghost s: string, ghost done: seq<Token>, p0: nat) returns (p: nat, more: bool)
    requires Cut(buf[..], s, done, p0) && NulFree(s) && p0 <= |s|
    ensures p0 <= p == SkipWhite(s, p0) <= |s|
    ensures more <==> !Next(s, p0).Nothing?
    ensures more <==> p < |s|
  {
    CutUntouched(buf[..], s, done, p0);
    NothingIff(s, p0);
    hide Cut, Next, SkipWhite;
    p := SkipWhiteInPlace(buf, s, p0);
    more := buf[p] != NUL;
  }

  lemma NothingIff(s: string, p: nat)
    requires p <= |s|
    ensures Next(s, p).Nothing? <==> SkipWhite(s, p) == |s|
  {
  }

  lemma NothingCut(s: string)
    ensures Cut(s + [NUL], s, [], 0)
  {
  }

  /** Trailing white space changes nothing. */
  lemma CutToEnd(buf: seq<char>, s: string, done: seq<Token>, p: nat)
    requires Cut(buf, s, done, p)
    ensures Cut(buf, s, done, |s|)
  {
    assert buf[|s|..] == s[|s|..] + [NUL] by {
      assert buf[|s|] == buf[p..][|s| - p];
    }
  }

  lemma TokensInBuffer(buf: seq<char>, s: string, ts: seq<Token>)
    requires Cut(buf, s, ts, |s|) && NulFree(s)
    ensures forall k :: 0 <= k < |ts| ==> CStr(buf, ts[k].start) == s[ts[k].start..ts[k].end]
  {
    forall k | 0 <= k < |ts|
      ensures CStr(buf, ts[k].start) == s[ts[k].start..ts[k].end]
    {
      CStrIs(buf, ts[k].start, ts[k].end);
    }
  }
}

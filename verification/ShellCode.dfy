/**
 * sh.c's parser on its buffer: the cursor moves, and at the end words are cut off in place.
 *
 * A tree holds positions of words, from their first character to the one behind their last, as the
 * nodes of the code hold pointers. What a tree denotes is read off the buffer before the cut; after it
 * the same positions, read as C strings, give the same words.
 *
 * The methods call each other as the code does and end because the cursor moves on.
 */
module ShellCode {
  import opened Shell

  // A word as the pointers to its first character and behind its last.
  datatype Span = Span(q: nat, eq: nat)

  datatype Node =
    | ExecNode(argv: seq<Span>)
    | RedirNode(cmd: Node, file: Span, input: bool)
    | PipeNode(left: Node, right: Node)
    | ListNode(left: Node, right: Node)
    | BackNode(cmd: Node)

  /** The words of a node. */
  function Spans(n: Node): seq<Span> {
    match n
    case ExecNode(argv) => argv
    case RedirNode(c, file, _) => Spans(c) + [file]
    case PipeNode(l, r) => Spans(l) + Spans(r)
    case ListNode(l, r) => Spans(l) + Spans(r)
    case BackNode(c) => Spans(c)
  }

  /** s is a word of the text, and no more of the word follows it. */
  predicate IsWord(text: string, s: Span) {
    && s.q < s.eq < |text| && !WordChar(text[s.eq])
    && forall i | s.q <= i < s.eq :: WordChar(text[i])
  }

  predicate Words(text: string, ws: seq<Span>) {
    forall i | 0 <= i < |ws| :: IsWord(text, ws[i])
  }

  function Strings(text: string, ws: seq<Span>): (r: seq<string>)
    requires Words(text, ws)
    ensures |r| == |ws| && forall i | 0 <= i < |ws| :: r[i] == text[ws[i].q..ws[i].eq]
  {
    if ws == [] then []
    else Strings(text, ws[..|ws| - 1]) + [text[ws[|ws| - 1].q..ws[|ws| - 1].eq]]
  }

  /** The command a node stands for. */
  predicate Denotes(text: string, n: Node, c: Cmd) {
    match n
    case ExecNode(argv) => Words(text, argv) && c == Exec(Strings(text, argv))
    case RedirNode(m, file, input) =>
      IsWord(text, file) && c.Redir? && Denotes(text, m, c.cmd) && c.file == text[file.q..file.eq] && c.input == input
    case PipeNode(l, r) => c.Pipe? && Denotes(text, l, c.left) && Denotes(text, r, c.right)
    case ListNode(l, r) => c.List? && Denotes(text, l, c.left) && Denotes(text, r, c.right)
    case BackNode(m) => c.Back? && Denotes(text, m, c.cmd)
  }

  lemma {:induction false} DenotesWords(text: string, n: Node, c: Cmd)
    requires Denotes(text, n, c)
    ensures Words(text, Spans(n))
    decreases n
  {
    match n
    case ExecNode(argv) =>
    case RedirNode(m, file, input) => DenotesWords(text, m, c.cmd);
    case PipeNode(l, r) =>
      DenotesWords(text, l, c.left);
      DenotesWords(text, r, c.right);
    case ListNode(l, r) =>
      DenotesWords(text, l, c.left);
      DenotesWords(text, r, c.right);
    case BackNode(m) => DenotesWords(text, m, c.cmd);
  }

  // A redirection to put round a node.
  datatype Redirect = Redirect(file: Span, input: bool)

  function WrapNode(n: Node, rs: seq<Redirect>): Node {
    if rs == [] then n
    else RedirNode(WrapNode(n, rs[..|rs| - 1]), rs[|rs| - 1].file, rs[|rs| - 1].input)
  }

  ghost predicate AreRedirs(text: string, rs: seq<Redirect>, cs: seq<Redirection>) {
    && |rs| == |cs|
    && forall i | 0 <= i < |rs| ::
      IsWord(text, rs[i].file) && cs[i] == Redirection(text[rs[i].file.q..rs[i].file.eq], rs[i].input)
  }

  lemma {:induction false} WrapDenotes(text: string, n: Node, c: Cmd, rs: seq<Redirect>, cs: seq<Redirection>)
    requires Denotes(text, n, c) && AreRedirs(text, rs, cs)
    ensures Denotes(text, WrapNode(n, rs), Wrap(c, cs))
    decreases |rs|
  {
    if rs != [] {
      WrapDenotes(text, n, c, rs[..|rs| - 1], cs[..|cs| - 1]);
    }
  }

  // The end of a parse: a node, or a panic.
  datatype Parsed = Parsed(node: Node) | Failed(why: string)

  ghost predicate Agrees(text: string, p: Parsed, rest: string, r: Result<Cmd>) {
    match r
    case Panic(why) => p == Failed(why)
    case Ok(c, left) => p.Parsed? && Denotes(text, p.node, c) && rest == left
  }

  /** The C string at q is s. */
  predicate Reads(text: string, q: nat, s: string) {
    && q + |s| < |text| && text[q + |s|] == '\0'
    && forall i | 0 <= i < |s| :: text[q + i] == s[i] != '\0'
  }

  /** Read as C strings, the node's words are those of the command. */
  predicate ReadsAs(text: string, n: Node, c: Cmd) {
    match n
    case ExecNode(argv) =>
      c.Exec? && |argv| == |c.argv| && forall i | 0 <= i < |argv| :: Reads(text, argv[i].q, c.argv[i])
    case RedirNode(m, file, input) =>
      c.Redir? && ReadsAs(text, m, c.cmd) && Reads(text, file.q, c.file) && c.input == input
    case PipeNode(l, r) => c.Pipe? && ReadsAs(text, l, c.left) && ReadsAs(text, r, c.right)
    case ListNode(l, r) => c.List? && ReadsAs(text, l, c.left) && ReadsAs(text, r, c.right)
    case BackNode(m) => c.Back? && ReadsAs(text, m, c.cmd)
  }

  predicate IsEnd(ws: seq<Span>, i: nat) {
    exists k :: 0 <= k < |ws| && ws[k].eq == i
  }

  /** text with a NUL behind each of the words. */
  predicate Cut(text: string, text': string, ws: seq<Span>) {
    |text'| == |text| && forall i | 0 <= i < |text| :: text'[i] == if IsEnd(ws, i) then '\0' else text[i]
  }

  /** No end of a word lies inside a word, so each is cut off where it ends. */
  lemma CutReads(text: string, text': string, ws: seq<Span>, w: Span)
    requires Words(text, ws) && Cut(text, text', ws) && IsWord(text, w) && IsEnd(ws, w.eq)
    ensures Reads(text', w.q, text[w.q..w.eq])
  {
    forall i | w.q <= i < w.eq ensures text'[i] == text[i] != '\0' {
      NoEndInside(text, ws, i);
    }
  }

  lemma NoEndInside(text: string, ws: seq<Span>, i: nat)
    requires Words(text, ws) && i < |text| && WordChar(text[i])
    ensures !IsEnd(ws, i)
  {
    forall k | 0 <= k < |ws| ensures ws[k].eq != i {
      assert IsWord(text, ws[k]);
    }
  }

  lemma {:induction false} CutReadsAs(text: string, text': string, ws: seq<Span>, n: Node, c: Cmd)
    requires Words(text, ws) && Cut(text, text', ws) && Denotes(text, n, c)
    requires forall k | 0 <= k < |Spans(n)| :: IsEnd(ws, Spans(n)[k].eq)
    ensures ReadsAs(text', n, c)
    decreases n, 1
  {
    hide Cut, Reads;
    match n
    case ExecNode(argv) =>
      forall i | 0 <= i < |argv| ensures Reads(text', argv[i].q, c.argv[i]) {
        assert IsWord(text, argv[i]) && IsEnd(ws, Spans(n)[i].eq);
        CutReads(text, text', ws, argv[i]);
      }
    case RedirNode(m, file, input) =>
      var k := |Spans(m)|;
      assert Spans(n)[k] == file && forall i | 0 <= i < k :: Spans(m)[i] == Spans(n)[i];
      CutReads(text, text', ws, file);
      CutReadsAs(text, text', ws, m, c.cmd);
    case PipeNode(l, r) => CutBoth(text, text', ws, n, c);
    case ListNode(l, r) => CutBoth(text, text', ws, n, c);
    case BackNode(m) =>
      assert Spans(n) == Spans(m);
      CutReadsAs(text, text', ws, m, c.cmd);
  }

  lemma {:induction false} CutBoth(text: string, text': string, ws: seq<Span>, n: Node, c: Cmd)
    requires Words(text, ws) && Cut(text, text', ws) && Denotes(text, n, c) && (n.PipeNode? || n.ListNode?)
    requires forall k | 0 <= k < |Spans(n)| :: IsEnd(ws, Spans(n)[k].eq)
    ensures ReadsAs(text', n.left, c.left) && ReadsAs(text', n.right, c.right)
    decreases n, 0
  {
    hide Cut, Reads, ReadsAs;
    var k := |Spans(n.left)|;
    forall i | 0 <= i < k ensures IsEnd(ws, Spans(n.left)[i].eq) {
      assert Spans(n.left)[i] == Spans(n)[i];
    }
    forall i | 0 <= i < |Spans(n.right)| ensures IsEnd(ws, Spans(n.right)[i].eq) {
      assert Spans(n.right)[i] == Spans(n)[k + i];
    }
    CutReadsAs(text, text', ws, n.left, c.left);
    CutReadsAs(text, text', ws, n.right, c.right);
  }

  // What gettoken returns for a token.
  function Code(t: Token): char {
    match t
    case End => '\0'
    case Sym(c) => c
    case Append => '+'
    case Word(_) => 'a'
  }

  class Parser {
    const buf: array<char>
    const es: nat
    var ps: nat

    ghost predicate Valid()
      reads this, buf
    {
      ps <= es < buf.Length && buf[es] == '\0' && forall i | 0 <= i < es :: buf[i] != '\0'
    }

    ghost function Text(): string
      reads this, buf
      requires Valid()
    {
      buf[ps..es]
    }

    constructor (buf: array<char>, es: nat)
      requires es < buf.Length && buf[es] == '\0' && forall i | 0 <= i < es :: buf[i] != '\0'
      ensures Valid() && this.buf == buf && this.es == es && ps == 0
    {
      this.buf, this.es, ps := buf, es, 0;
    }

    /** The loops over blanks. */
    method SkipBlanks(s: nat) returns (s': nat)
      requires Valid() && s <= es
      ensures s <= s' <= es && buf[s'..es] == Skip(buf[s..es])
    {
      s' := s;
      while s' < es && White(buf[s'])
        invariant s <= s' <= es && Skip(buf[s..es]) == Skip(buf[s'..es])
      {
        assert buf[s'..es][1..] == buf[s' + 1..es];
        s' := s' + 1;
      }
    }

    method GetToken() returns (ret: char, q: nat, eq: nat)
      requires Valid()
      modifies this`ps
      ensures Valid() && ps >= old(ps)
      ensures var r := Shell.GetToken(old(Text()));
        && ret == Code(r.0) && Text() == r.1 && |r.1| == es - ps
        && (ret == 'a' <==> r.0.Word?) && (ret == '<' <==> r.0 == Sym('<')) && (ret == '\0' <==> r.0.End?)
        && (r.0.Word? ==> IsWord(buf[..], Span(q, eq)) && buf[q..eq] == r.0.w)
    {
      hide WordLen, Skip, IsWord;
      q := SkipBlanks(ps);
      var s := q;
      ghost var t := buf[q..es];
      ret := buf[s];
      if ret == '\0' {
      } else if ret == '>' {
        s := s + 1;
        assert t[1..] == buf[s..es];
        if buf[s] == '>' {
          ret := '+';
          s := s + 1;
          assert t[2..] == buf[s..es];
        }
      } else if Symbol(ret) {
        s := s + 1;
        assert t[1..] == buf[s..es];
      } else {
        ret := 'a';
        s := WordEnd(q);
      }
      eq := s;
      ps := SkipBlanks(s);
    }

    method WordEnd(q: nat) returns (s: nat)
      requires Valid() && q < es && WordChar(buf[q])
      ensures q < s <= es && s == q + WordLen(buf[q..es])
      ensures buf[q..es][..s - q] == buf[q..s] && buf[q..es][s - q..] == buf[s..es]
      ensures IsWord(buf[..], Span(q, s)) && WordLen(buf[q..es]) == s - q
    {
      hide WordLen;
      s := q;
      ghost var t := buf[q..es];
      while s < es && !White(buf[s]) && !Symbol(buf[s])
        invariant q <= s <= es && forall i | q <= i < s :: WordChar(buf[i])
      {
        s := s + 1;
      }
      assert forall i | 0 <= i < s - q :: t[i] == buf[q + i];
      WordLenUnique(t, s - q);
    }

    static lemma {:induction false} WordLenUnique(t: string, n: nat)
      requires n <= |t| && (forall i | 0 <= i < n :: WordChar(t[i])) && (n < |t| ==> !WordChar(t[n]))
      ensures WordLen(t) == n
      decreases |t|
    {
      if n > 0 {
        WordLenUnique(t[1..], n - 1);
      }
    }

    method PeekAt(toks: string) returns (b: bool)
      requires Valid()
      modifies this`ps
      ensures Valid() && ps >= old(ps) && b == Peek(old(Text()), toks) && Text() == Skip(old(Text()))
    {
      ps := SkipBlanks(ps);
      b := buf[ps] != '\0' && buf[ps] in toks;
    }
  
    /** parseredirs; `why` is the panic if it is not empty. */
    method ParseRedirs() returns (rs: seq<Redirect>, why: string)
      requires Valid()
      modifies this`ps
      ensures Valid() && ps >= old(ps)
      ensures match Shell.ParseRedirs(old(Text()))
        case Panic(p) => why == p != ""
        case Ok(cs, rest) => why == "" && AreRedirs(buf[..], rs, cs) && Text() == rest
    {
      hide Shell.ParseRedirs, Shell.GetToken, Skip, Peek, IsWord, Text;
      rs, why := [], "";
      ghost var t0, done: seq<Redirection> := Text(), [];
      ghost var t := t0;
      PrefixedNone(Shell.ParseRedirs(t0));
      var more := PeekAt("<>");
      while more
        invariant Valid() && ps >= old(ps) && AreRedirs(buf[..], rs, done)
        invariant Text() == Skip(t) && more == Peek(t, "<>")
        invariant Shell.ParseRedirs(t0) == Prefixed(done, Shell.ParseRedirs(t))
        decreases es - ps
      {
        RedirStep(t);
        var r, ok := OneRedirect();
        if !ok {
          return rs, "missing file for redirection";
        }
        ghost var c := Redirection(buf[r.file.q..r.file.eq], r.input);
        t := Text();
        PrefixedTwice(done, c, Shell.ParseRedirs(t));
        rs, done := rs + [r], done + [c];
        more := PeekAt("<>");
      }
      RedirStep(t);
      PrefixedEnd(done, Skip(t));
    }

    /** One round of the loop of parseredirs, behind its peek. */
    method OneRedirect() returns (r: Redirect, ok: bool)
      requires Valid() && Shell.GetToken(Text()).0 != End
      modifies this`ps
      ensures Valid() && ps > old(ps)
      ensures var tok := Shell.GetToken(old(Text())); var file := Shell.GetToken(tok.1);
        && ok == file.0.Word?
        && (ok ==> IsWord(buf[..], r.file) && r.file.q <= r.file.eq <= buf.Length)
        && (ok ==> file.0.w == buf[r.file.q..r.file.eq] && r.input == (tok.0 == Sym('<')) && Text() == file.1)
    {
      hide Shell.GetToken;
      var tok, q0, eq0 := GetToken();
      var file, q, eq := GetToken();
      r, ok := Redirect(Span(q, eq), tok == '<'), file == 'a';
    }

    static lemma RedirStep(s: string)
      ensures !Peek(s, "<>") ==> Shell.ParseRedirs(s) == Ok([], Skip(s))
      ensures Peek(s, "<>") ==>
        var tok := Shell.GetToken(Skip(s)); var file := Shell.GetToken(tok.1);
        && tok.0 != End
        && Shell.ParseRedirs(s) ==
          if !file.0.Word? then Panic("missing file for redirection")
          else Prefixed([Redirection(file.0.w, tok.0 == Sym('<'))], Shell.ParseRedirs(file.1))
    {
      if Peek(s, "<>") {
        SkipTwice(s);
      }
    }

    static lemma {:induction false} SkipTwice(s: string)
      ensures Skip(Skip(s)) == Skip(s)
    {
    }

    static ghost function Prefixed(done: seq<Redirection>, r: Result<seq<Redirection>>): Result<seq<Redirection>> {
      match r
      case Panic(why) => Panic(why)
      case Ok(cs, rest) => Ok(done + cs, rest)
    }

    static lemma PrefixedNone(r: Result<seq<Redirection>>)
      ensures Prefixed([], r) == r
    {
      if r.Ok? {
        assert [] + r.value == r.value;
      }
    }

    static lemma PrefixedEnd(done: seq<Redirection>, rest: string)
      ensures Prefixed(done, Ok([], rest)) == Ok(done, rest)
    {
      var none: seq<Redirection> := [];
      assert done + none == done;
    }

    static lemma PrefixedTwice(done: seq<Redirection>, c: Redirection, r: Result<seq<Redirection>>)
      ensures Prefixed(done, Prefixed([c], r)) == Prefixed(done + [c], r)
    {
      if r.Ok? {
        assert done + ([c] + r.value) == done + [c] + r.value;
      }
    }
  
    /** The loop of parseexec, redirections rs0 standing before its first word. */
    method ParseArgs(rs0: seq<Redirect>, ghost cs0: seq<Redirection>) returns (p: Parsed)
      requires Valid() && AreRedirs(buf[..], rs0, cs0)
      modifies this`ps
      ensures Valid() && ps >= old(ps)
      ensures Agrees(buf[..], p, Text(), Shell.ParseArgs([], cs0, old(Text())))
    {
      hide Shell.ParseArgs, Shell.ParseRedirs, Shell.GetToken, Skip, Peek, IsWord, Text, Denotes;
      hide Wrap, WrapNode, AreRedirs, Strings;
      var argv: seq<Span> := [];
      var rs := rs0;
      ghost var ws: seq<string>, cs, t := Strings(buf[..], argv), cs0, Text();
      StringsNone(buf[..]);
      var stop := PeekAt("|)&;");
      while !stop
        invariant Valid() && ps >= old(ps) && AreRedirs(buf[..], rs, cs) && Words(buf[..], argv)
        invariant |argv| < MAXARGS && ws == Strings(buf[..], argv)
        invariant Text() == Skip(t) && stop == Peek(t, "|)&;")
        invariant Shell.ParseArgs([], cs0, old(Text())) == Shell.ParseArgs(ws, cs, t)
        decreases es - ps
      {
        ArgsOnce(ws, cs, t);
        var tok, q, eq := GetToken();
        if tok == '\0' {
          p := Finish(argv, rs, ws, cs);
          return;
        }
        if tok != 'a' {
          return Failed("syntax");
        }
        if |argv| + 1 >= MAXARGS {
          return Failed("too many args");
        }
        StringsAdd(buf[..], argv, Span(q, eq));
        argv := argv + [Span(q, eq)];
        ws := Strings(buf[..], argv);
        ghost var spec := Shell.ParseRedirs(Text());
        var more, why := ParseRedirs();
        if why != "" {
          return Failed(why);
        }
        AreBoth(buf[..], rs, cs, more, spec.value);
        rs, cs, t := rs + more, cs + spec.value, Text();
        stop := PeekAt("|)&;");
      }
      ArgsOnce(ws, cs, t);
      p := Finish(argv, rs, ws, cs);
    }

    /** The node parseexec has filled. */
    method Finish(argv: seq<Span>, rs: seq<Redirect>, ghost ws: seq<string>,
                  ghost cs: seq<Redirection>) returns (p: Parsed)
      requires AreRedirs(buf[..], rs, cs) && Words(buf[..], argv) && ws == Strings(buf[..], argv)
      ensures p.Parsed? && Denotes(buf[..], p.node, Wrap(Exec(ws), cs))
    {
      WrapDenotes(buf[..], ExecNode(argv), Exec(ws), rs, cs);
      p := Parsed(WrapNode(ExecNode(argv), rs));
    }

    static lemma StringsNone(text: string)
      ensures Strings(text, []) == []
    {
    }

    static lemma StringsAdd(text: string, ws: seq<Span>, s: Span)
      requires Words(text, ws) && IsWord(text, s)
      ensures Words(text, ws + [s]) && s.q <= s.eq <= |text|
      ensures Strings(text, ws + [s]) == Strings(text, ws) + [text[s.q..s.eq]]
    {
      assert (ws + [s])[..|ws|] == ws;
    }

    static lemma AreBoth(text: string, rs: seq<Redirect>, cs: seq<Redirection>, rs': seq<Redirect>,
                         cs': seq<Redirection>)
      requires AreRedirs(text, rs, cs) && AreRedirs(text, rs', cs')
      ensures AreRedirs(text, rs + rs', cs + cs')
    {
    }

    static lemma ArgsOnce(ws: seq<string>, cs: seq<Redirection>, s: string)
      ensures Peek(s, "|)&;") ==> Shell.ParseArgs(ws, cs, s) == Ok(Wrap(Exec(ws), cs), Skip(s))
      ensures !Peek(s, "|)&;") ==>
        var tok := Shell.GetToken(Skip(s));
        && (tok.0.End? ==> Shell.ParseArgs(ws, cs, s) == Ok(Wrap(Exec(ws), cs), tok.1))
        && (!tok.0.End? && !tok.0.Word? ==> Shell.ParseArgs(ws, cs, s) == Panic("syntax"))
        && (tok.0.Word? && |ws| + 1 >= MAXARGS ==> Shell.ParseArgs(ws, cs, s) == Panic("too many args"))
        && (tok.0.Word? && |ws| + 1 < MAXARGS ==>
              var more := Shell.ParseRedirs(tok.1);
              Shell.ParseArgs(ws, cs, s) ==
                if more.Panic? then Panic(more.why) else Shell.ParseArgs(ws + [tok.0.w], cs + more.value, more.rest))
    {
      SkipTwice(s);
    }
  
    method ParseExec() returns (p: Parsed)
      requires Valid()
      modifies this`ps
      ensures Valid() && ps >= old(ps)
      ensures Agrees(buf[..], p, Text(), Shell.ParseExec(old(Text())))
      decreases es - ps, 2
    {
      hide Shell.ParseArgs, Shell.ParseRedirs, Shell.ParseBlock, Skip, Peek, Text, Denotes, AreRedirs;
      ghost var t := Text();
      var block := PeekAt("(");
      if block {
        p := ParseBlock();
        return;
      }
      ghost var spec := Shell.ParseRedirs(Text());
      var rs, why := ParseRedirs();
      if why != "" {
        return Failed(why);
      }
      p := ParseArgs(rs, spec.value);
    }

    method ParseBlock() returns (p: Parsed)
      requires Valid()
      modifies this`ps
      ensures Valid() && ps >= old(ps)
      ensures Agrees(buf[..], p, Text(), Shell.ParseBlock(old(Text())))
      decreases es - ps, 1
    {
      hide Shell.ParseLine, Shell.ParseRedirs, Shell.GetToken, Skip, Peek, Text, Denotes, AreRedirs, Wrap, WrapNode;
      ghost var t := Text();
      BlockIs(t);
      var open := PeekAt("(");
      if !open {
        return Failed("parseblock");
      }
      var tok, q, eq := GetToken();
      p := ParseLine();
      if p.Failed? {
        return;
      }
      ghost var c, t1 := Shell.ParseLine(Shell.GetToken(Skip(t)).1).value, Text();
      var close := PeekAt(")");
      if !close {
        return Failed("syntax - missing )");
      }
      tok, q, eq := GetToken();
      ghost var spec := Shell.ParseRedirs(Text());
      var rs, why := ParseRedirs();
      if why != "" {
        return Failed(why);
      }
      WrapDenotes(buf[..], p.node, c, rs, spec.value);
      p := Parsed(WrapNode(p.node, rs));
    }

    /** parseblock, step by step. */
    static lemma BlockIs(s: string)
      ensures !Peek(s, "(") ==> Shell.ParseBlock(s) == Panic("parseblock")
      ensures Peek(s, "(") ==>
        var tok := Shell.GetToken(Skip(s)); var line := Shell.ParseLine(tok.1);
        && tok.0 != End && |tok.1| < |s|
        && (line.Panic? ==> Shell.ParseBlock(s) == Panic(line.why))
        && (line.Ok? && !Peek(line.rest, ")") ==> Shell.ParseBlock(s) == Panic("syntax - missing )"))
        && (line.Ok? && Peek(line.rest, ")") ==>
              var more := Shell.ParseRedirs(Shell.GetToken(Skip(line.rest)).1);
              Shell.ParseBlock(s) ==
                if more.Panic? then Panic(more.why) else Ok(Wrap(line.value, more.value), more.rest))
    {
      SkipTwice(s);
    }

    method ParsePipe() returns (p: Parsed)
      requires Valid()
      modifies this`ps
      ensures Valid() && ps >= old(ps)
      ensures Agrees(buf[..], p, Text(), Shell.ParsePipe(old(Text())))
      decreases es - ps, 3
    {
      hide Shell.ParseExec, Shell.ParsePipe, Shell.GetToken, Skip, Peek, Text;
      ghost var t := Text();
      PipeIs(t);
      p := ParseExec();
      if p.Failed? {
        return;
      }
      var more := PeekAt("|");
      if more {
        var tok, q, eq := GetToken();
        var right := ParsePipe();
        p := if right.Failed? then right else Parsed(PipeNode(p.node, right.node));
      }
    }

    static lemma PipeIs(s: string)
      ensures var left := Shell.ParseExec(s);
        && (left.Panic? ==> Shell.ParsePipe(s) == Panic(left.why))
        && (left.Ok? && !Peek(left.rest, "|") ==> Shell.ParsePipe(s) == Ok(left.value, Skip(left.rest)))
        && (left.Ok? && Peek(left.rest, "|") ==>
              var tok := Shell.GetToken(Skip(left.rest)); var right := Shell.ParsePipe(tok.1);
              && tok.0 != End
              && Shell.ParsePipe(s) ==
                   if right.Panic? then Panic(right.why) else Ok(Pipe(left.value, right.value), right.rest))
    {
      if Shell.ParseExec(s).Ok? {
        SkipTwice(Shell.ParseExec(s).rest);
      }
    }

    /** The loop of parseline over "&". */
    method ParseBacks(n: Node, ghost c: Cmd) returns (m: Node)
      requires Valid() && Denotes(buf[..], n, c)
      modifies this`ps
      ensures Valid() && ps >= old(ps)
      ensures var r := Backs(c, old(Text())); Denotes(buf[..], m, r.0) && Text() == r.1
    {
      hide Backs, Shell.GetToken, Skip, Peek, Text;
      m := n;
      ghost var d, t := c, Text();
      var more := PeekAt("&");
      while more
        invariant Valid() && ps >= old(ps) && Denotes(buf[..], m, d)
        invariant Text() == Skip(t) && more == Peek(t, "&") && Backs(c, old(Text())) == Backs(d, t)
        decreases es - ps
      {
        BacksIs(d, t);
        var tok, q, eq := GetToken();
        m, d, t := BackNode(m), Back(d), Text();
        more := PeekAt("&");
      }
      BacksIs(d, t);
    }

    static lemma BacksIs(c: Cmd, s: string)
      ensures !Peek(s, "&") ==> Backs(c, s) == (c, Skip(s))
      ensures Peek(s, "&") ==> Shell.GetToken(Skip(s)).0 != End
      ensures Peek(s, "&") ==> Backs(c, s) == Backs(Back(c), Shell.GetToken(Skip(s)).1)
    {
      SkipTwice(s);
    }

    method ParseLine() returns (p: Parsed)
      requires Valid()
      modifies this`ps
      ensures Valid() && ps >= old(ps)
      ensures Agrees(buf[..], p, Text(), Shell.ParseLine(old(Text())))
      decreases es - ps, 4
    {
      hide Shell.ParsePipe, Shell.ParseLine, Backs, Shell.GetToken, Skip, Peek, Text;
      ghost var t := Text();
      LineIs(t);
      p := ParsePipe();
      if p.Failed? {
        return;
      }
      var n := ParseBacks(p.node, Shell.ParsePipe(t).value);
      p := Parsed(n);
      var more := PeekAt(";");
      if more {
        var tok, q, eq := GetToken();
        var right := ParseLine();
        p := if right.Failed? then right else Parsed(ListNode(n, right.node));
      }
    }

    static lemma LineIs(s: string)
      ensures var left := Shell.ParsePipe(s);
        && (left.Panic? ==> Shell.ParseLine(s) == Panic(left.why))
        && (left.Ok? ==>
              var b := Backs(left.value, left.rest);
              && (!Peek(b.1, ";") ==> Shell.ParseLine(s) == Ok(b.0, Skip(b.1)))
              && (Peek(b.1, ";") ==>
                    var tok := Shell.GetToken(Skip(b.1)); var right := Shell.ParseLine(tok.1);
                    && tok.0 != End
                    && Shell.ParseLine(s) ==
                         if right.Panic? then Panic(right.why) else Ok(List(b.0, right.value), right.rest)))
    {
      if Shell.ParsePipe(s).Ok? {
        SkipTwice(Backs(Shell.ParsePipe(s).value, Shell.ParsePipe(s).rest).1);
      }
    }
  
    /** "NUL-terminate all the counted strings." */
    method Nulterminate(n: Node)
      requires forall k | 0 <= k < |Spans(n)| :: Spans(n)[k].eq < buf.Length
      modifies buf
      ensures Cut(old(buf[..]), buf[..], Spans(n))
      decreases n, 1
    {
      match n
      case ExecNode(argv) =>
        var i := 0;
        while i < |argv|
          invariant 0 <= i <= |argv| && Cut(old(buf[..]), buf[..], argv[..i])
        {
          assert Spans(n)[i] == argv[i];
          CutOne(old(buf[..]), buf[..], argv[..i], argv[i]);
          buf[argv[i].eq] := '\0';
          assert argv[..i + 1] == argv[..i] + [argv[i]];
          i := i + 1;
        }
        assert argv[..i] == argv;
      case RedirNode(m, file, _) =>
        assert Spans(n) == Spans(m) + [file];
        Parts(Spans(m), [file], buf.Length);
        Nulterminate(m);
        assert [file][0] == file;
        CutOne(old(buf[..]), buf[..], Spans(m), file);
        buf[file.eq] := '\0';
      case PipeNode(l, r) => NulterminateBoth(n);
      case ListNode(l, r) => NulterminateBoth(n);
      case BackNode(m) =>
        assert Spans(n) == Spans(m);
        Nulterminate(m);
    }

    method NulterminateBoth(n: Node)
      requires n.PipeNode? || n.ListNode?
      requires forall k | 0 <= k < |Spans(n)| :: Spans(n)[k].eq < buf.Length
      modifies buf
      ensures Cut(old(buf[..]), buf[..], Spans(n))
      decreases n, 0
    {
      var l, r := n.left, n.right;
      assert Spans(n) == Spans(l) + Spans(r);
      Parts(Spans(l), Spans(r), buf.Length);
      Nulterminate(l);
      ghost var mid := buf[..];
      Nulterminate(r);
      CutTwice(old(buf[..]), mid, buf[..], Spans(l), Spans(r));
    }

    static lemma Parts(a: seq<Span>, b: seq<Span>, size: nat)
      requires forall k | 0 <= k < |a + b| :: (a + b)[k].eq < size
      ensures forall k | 0 <= k < |a| :: a[k].eq < size
      ensures forall k | 0 <= k < |b| :: b[k].eq < size
    {
      assert forall k | 0 <= k < |a| :: (a + b)[k] == a[k];
      assert forall k | 0 <= k < |b| :: (a + b)[|a| + k] == b[k];
    }

    static lemma EndsBoth(a: seq<Span>, b: seq<Span>, i: nat)
      ensures IsEnd(a + b, i) <==> IsEnd(a, i) || IsEnd(b, i)
    {
      if k :| 0 <= k < |a| && a[k].eq == i {
        assert (a + b)[k].eq == i;
      }
      if k :| 0 <= k < |b| && b[k].eq == i {
        assert (a + b)[|a| + k].eq == i;
      }
    }

    static lemma CutOne(text: string, text': string, ws: seq<Span>, w: Span)
      requires Cut(text, text', ws) && w.eq < |text|
      ensures Cut(text, text'[w.eq := '\0'], ws + [w])
    {
      forall i: nat ensures IsEnd(ws + [w], i) <==> IsEnd(ws, i) || i == w.eq {
        EndsBoth(ws, [w], i);
        assert [w][0] == w;
      }
    }

    static lemma CutTwice(text: string, mid: string, text': string, a: seq<Span>, b: seq<Span>)
      requires Cut(text, mid, a) && Cut(mid, text', b)
      ensures Cut(text, text', a + b)
    {
      forall i: nat ensures IsEnd(a + b, i) <==> IsEnd(a, i) || IsEnd(b, i) {
        EndsBoth(a, b, i);
      }
    }

    /** parsecmd: afterwards every argument and file name, read as a C string, is its own word. */
    method ParseCmd() returns (p: Parsed)
      requires Valid() && ps == 0
      modifies this`ps, buf
      ensures var r := Shell.ParseCmd(old(Text()));
        if r.Panic? then p == Failed(r.why) && buf[..] == old(buf[..])
        else p.Parsed? && Denotes(old(buf[..]), p.node, r.value) && ReadsAs(buf[..], p.node, r.value)
    {
      hide Shell.ParseLine, Skip, Peek, Denotes, ReadsAs, Cut;
      ghost var t, text := Text(), buf[..];
      p := ParseLine();
      if p.Failed? {
        return;
      }
      var b := PeekAt("");
      if ps != es {
        return Failed("syntax");
      }
      ghost var c := Shell.ParseLine(t).value;
      DenotesWords(text, p.node, c);
      assert forall k | 0 <= k < |Spans(p.node)| :: IsWord(text, Spans(p.node)[k]);
      Nulterminate(p.node);
      OwnEnds(Spans(p.node));
      CutReadsAs(text, buf[..], Spans(p.node), p.node, c);
    }

    static lemma OwnEnds(ws: seq<Span>)
      ensures forall k | 0 <= k < |ws| :: IsEnd(ws, ws[k].eq)
    {
    }
  }
}

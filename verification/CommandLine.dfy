/**
 The Windows command line builder `appendArgument` of core/launcher/launcher_windows.c: a counting
 pass, then a writing pass into a fixed buffer. The text it must produce is given by `Quoted`, and
 `Parse` is the rule by which the Microsoft C runtime splits a command line into arguments.
 */
module CommandLine {

  /** A UTF-16 code unit. */
  newtype wchar = x: int | 0 <= x < 0x1_0000

  const NUL: wchar := 0
  const TAB: wchar := 9
  const SPACE: wchar := 32
  const QUOTE: wchar := 34
  const BACKSLASH: wchar := 92

  /** CreateProcessW allows 32767 characters with the terminator. */
  const LIMIT: nat := 32766

  type Text = seq<wchar>

  /** A C string: no terminator inside. */
  predicate IsString(a: Text) { NUL !in a }

  function Slashes(n: nat): (s: Text)
    ensures |s| == n && forall i :: 0 <= i < n ==> s[i] == BACKSLASH
  {
    seq(n, _ => BACKSLASH)
  }

  // -------------------------------------------------------------------------
  // the text of one argument

  /** Backslashes are doubled in front of a quote, literal or closing, except in the program name. */
  function Escaped(pending: nat, program: bool): nat { if program then pending else 2 * pending }

  /** One character other than a backslash, with the backslashes read before it. */
  function Unit(c: wchar, pending: nat, program: bool): Text {
    if c == QUOTE then Slashes(Escaped(pending, program)) + [BACKSLASH, QUOTE] else Slashes(pending) + [c]
  }

  /** The argument body after `pending` backslashes have been read and not yet written. */
  function Body(arg: Text, pending: nat, program: bool): Text
    decreases |arg|
  {
    if arg == [] then Slashes(Escaped(pending, program))
    else if arg[0] == BACKSLASH then Body(arg[1..], pending + 1, program)
    else Unit(arg[0], pending, program) + Body(arg[1..], 0, program)
  }

  /** Arguments are separated by one space and always quoted. */
  function Opening(first: bool): Text { if first then [QUOTE] else [SPACE, QUOTE] }

  function Quoted(arg: Text, first: bool): Text {
    Opening(first) + Body(arg, 0, first) + [QUOTE]
  }

  /** An argument is refused when the line is over the limit, or it is a program name with a quote. */
  predicate Accepts(used: nat, arg: Text) {
    used <= LIMIT && (used == 0 ==> QUOTE !in arg) && used + |Quoted(arg, used == 0)| <= LIMIT
  }

  lemma {:induction false} BodyAtLeastPending(arg: Text, pending: nat, program: bool)
    ensures |Body(arg, pending, program)| >= pending
    decreases |arg|
  {
    if arg != [] && arg[0] == BACKSLASH {
      BodyAtLeastPending(arg[1..], pending + 1, program);
    }
  }

  /** Only quotes, and backslashes in front of a quote, are escaped: anything else is written as it is. */
  lemma {:induction false} PlainIsVerbatim(arg: Text, pending: nat, program: bool)
    requires QUOTE !in arg && (program || (arg != [] && arg[|arg| - 1] != BACKSLASH) || (arg == [] && pending == 0))
    ensures Body(arg, pending, program) == Slashes(pending) + arg
    decreases |arg|
  {
    if arg != [] {
      SlashesShift(pending, arg);
      PlainIsVerbatim(arg[1..], if arg[0] == BACKSLASH then pending + 1 else 0, program);
    }
  }

  /** So an argument without them is its own text between quotes, after one space unless it is the first. */
  lemma PlainQuoted(arg: Text, first: bool)
    requires QUOTE !in arg && BACKSLASH !in arg
    ensures Quoted(arg, first) == (if first then [] else [SPACE]) + [QUOTE] + arg + [QUOTE]
  {
    PlainIsVerbatim(arg, 0, first);
    assert Slashes(0) + arg == arg;
  }

  // -------------------------------------------------------------------------
  // the two passes

  /** Counts the characters of the quoted argument, giving up once they cannot fit. */
  method CountNeeded(used: nat, argument: Text, available: nat) returns (fits: bool, needed: nat)
    requires IsString(argument) && available <= LIMIT
    ensures fits <==> |Quoted(argument, used == 0)| <= available
    ensures fits ==> needed == |Quoted(argument, used == 0)|
  {
    var program := used == 0;
    needed := 2 + (if used != 0 then 1 else 0);
    var slashes := 0;
    var p := 0;
    ghost var base := needed;
    while true
      invariant 0 <= p <= |argument|
      invariant slashes <= needed <= 3 * LIMIT
      invariant needed + |Body(argument[p..], slashes, program)| == |Quoted(argument, program)| + slashes
      decreases |argument| - p
    {
      ghost var rest := argument[p..];
      BodyAtLeastPending(rest, slashes, program);
      if needed > available {
        return false, needed;
      }
      if p < |argument| && argument[p] == BACKSLASH {
        assert rest[1..] == argument[p + 1..];
        slashes := slashes + 1;
        needed := needed + 1;
        p := p + 1;
        continue;
      }
      if !program && (p == |argument| || argument[p] == QUOTE) {
        needed := needed + slashes;
      }
      slashes := 0;
      if p == |argument| {
        break;
      }
      assert rest[1..] == argument[p + 1..];
      needed := needed + (if argument[p] == QUOTE then 2 else 1);
      p := p + 1;
    }
    fits := needed <= available;
  }

  /** Appends one argument; a refusal leaves the buffer and the length as they were. */
  method AppendArgument(command: array<wchar>, used: nat, argument: Text) returns (ok: bool, newUsed: nat)
    requires IsString(argument) && command.Length > LIMIT
    modifies command
    ensures ok <==> Accepts(used, argument)
    ensures ok <==>
      used <= LIMIT && (used == 0 ==> QUOTE !in argument) && used + |Quoted(argument, used == 0)| <= LIMIT
    ensures !ok ==> newUsed == used && command[..] == old(command[..])
    ensures ok ==>
      && newUsed == used + |Quoted(argument, used == 0)| <= LIMIT
      && command[..newUsed] == old(command[..used]) + Quoted(argument, used == 0)
      && command[newUsed] == NUL
      && command[newUsed + 1..] == old(command[newUsed + 1..])
  {
    if used > LIMIT {
      return false, used;
    }
    var program := used == 0;
    if program && QUOTE in argument {
      return false, used;
    }
    var fits, needed := CountNeeded(used, argument, LIMIT - used);
    if !fits {
      return false, used;
    }
    newUsed := WriteArgument(command, used, argument);
    ok := true;
  }

  /** Separator, opening quote, body, closing quote, terminator. */
  method WriteArgument(command: array<wchar>, used: nat, argument: Text) returns (out: nat)
    requires IsString(argument) && used + |Quoted(argument, used == 0)| < command.Length
    modifies command
    ensures out == used + |Quoted(argument, used == 0)|
    ensures command[..out] == old(command[..used]) + Quoted(argument, used == 0)
    ensures command[out] == NUL
    ensures command[out + 1..] == old(command[out + 1..])
  {
    var program := used == 0;
    ghost var body := Body(argument, 0, program);
    out := WriteOpening(command, used);
    ghost var head := command[..out];
    out := WriteBody(command, out, argument, program);
    command[out] := QUOTE;
    command[out + 1] := NUL;
    out := out + 1;
    assert command[..out] == head + body + [QUOTE];
    OpeningRegroup(old(command[..used]), argument, program);
  }

  method WriteOpening(command: array<wchar>, used: nat) returns (out: nat)
    requires used + 2 <= command.Length
    modifies command
    ensures out == used + (if used == 0 then 1 else 2)
    ensures command[..out] == old(command[..used]) + Opening(used == 0)
    ensures forall i :: out <= i < command.Length ==> command[i] == old(command[i])
  {
    out := used;
    if used != 0 {
      command[out] := SPACE;
      out := out + 1;
    }
    command[out] := QUOTE;
    out := out + 1;
  }

  lemma OpeningRegroup(line: Text, arg: Text, first: bool)
    ensures line + Opening(first) + Body(arg, 0, first) + [QUOTE] == line + Quoted(arg, first)
  {
  }

  /** The writing pass through a moving output position. */
  method WriteBody(command: array<wchar>, start: nat, argument: Text, program: bool) returns (out: nat)
    requires IsString(argument)
    requires start + |Body(argument, 0, program)| <= command.Length
    modifies command
    ensures out == start + |Body(argument, 0, program)|
    ensures command[..out] == old(command[..start]) + Body(argument, 0, program)
    ensures forall i :: out <= i < command.Length ==> command[i] == old(command[i])
  {
    ghost var text := Body(argument, 0, program);
    ghost var goal := command[..start] + text;
    ghost var end := start + |text|;
    out := start;
    var slashes := 0;
    var p := 0;
    assert argument[0..] == argument;
    while p < |argument|
      invariant 0 <= p <= |argument| && start <= out <= end
      invariant command[..out] + Body(argument[p..], slashes, program) == goal
      invariant forall i :: end <= i < command.Length ==> command[i] == old(command[i])
    {
      assert argument[p..][1..] == argument[p + 1..];
      var c := argument[p];
      if c == BACKSLASH {
        slashes := slashes + 1;
      } else {
        ghost var unit := Unit(c, slashes, program);
        ghost var later := Body(argument[p + 1..], 0, program);
        assert goal == command[..out] + (unit + later);
        assert |goal| == out + |unit| + |later|;
        ghost var before := command[..out];
        out := WriteUnit(command, out, c, slashes, program);
        assert before + unit + later == before + (unit + later);
        slashes := 0;
      }
      p := p + 1;
    }
    assert argument[p..] == [];
    WriteSlashes(command, out, if program then slashes else slashes * 2);
    out := out + (if program then slashes else slashes * 2);
  }

  /** The pending backslashes, the escaping backslash of a quote, and the character. */
  method WriteUnit(command: array<wchar>, start: nat, c: wchar, slashes: nat, program: bool) returns (out: nat)
    requires start + |Unit(c, slashes, program)| <= command.Length
    modifies command
    ensures out == start + |Unit(c, slashes, program)|
    ensures command[..out] == old(command[..start]) + Unit(c, slashes, program)
    ensures forall i :: out <= i < command.Length ==> command[i] == old(command[i])
  {
    var emit := if !program && c == QUOTE then slashes * 2 else slashes;
    WriteSlashes(command, start, emit);
    out := start + emit;
    ghost var front := old(command[..start]) + Slashes(emit);
    if c == QUOTE {
      out := WriteChar(command, out, BACKSLASH);
      assert command[..out] == front + [BACKSLASH];
    }
    ghost var before := command[..out];
    out := WriteChar(command, out, c);
    assert before + [c] == old(command[..start]) + Unit(c, slashes, program);
  }

  method WriteChar(command: array<wchar>, start: nat, c: wchar) returns (out: nat)
    requires start < command.Length
    modifies command
    ensures out == start + 1 && command[..out] == old(command[..start]) + [c]
    ensures forall i :: out <= i < command.Length ==> command[i] == old(command[i])
  {
    command[start] := c;
    out := start + 1;
  }

  method WriteSlashes(command: array<wchar>, start: nat, count: nat)
    requires start + count <= command.Length
    modifies command
    ensures command[..start + count] == old(command[..start]) + Slashes(count)
    ensures forall i :: start + count <= i < command.Length ==> command[i] == old(command[i])
  {
    var emit, out := count, start;
    while emit != 0
      invariant 0 <= emit <= count && out == start + count - emit
      invariant command[..out] == old(command[..start]) + Slashes(count - emit)
      invariant forall i :: start + count <= i < command.Length ==> command[i] == old(command[i])
    {
      command[out] := BACKSLASH;
      out := out + 1;
      emit := emit - 1;
    }
  }

  // -------------------------------------------------------------------------
  // the Microsoft C runtime rule

  /** The number of backslashes at the front. */
  function LeadingSlashes(s: Text): (n: nat)
    ensures n <= |s|
  {
    if s != [] && s[0] == BACKSLASH then 1 + LeadingSlashes(s[1..]) else 0
  }

  datatype Piece = Piece(text: Text, rest: Text)

  predicate Blank(c: wchar) { c == SPACE || c == TAB }

  /**
   The program name: quotes only toggle, backslashes are literal, and a blank ends it
   outside quotes.
   */
  function ParseProgram(s: Text, quoted: bool): Piece
    decreases |s|
  {
    if s == [] || (!quoted && Blank(s[0])) then Piece([], s)
    else if s[0] == QUOTE then ParseProgram(s[1..], !quoted)
    else
      var p := ParseProgram(s[1..], quoted);
      Piece([s[0]] + p.text, p.rest)
  }

  /**
   Any other argument. 2n backslashes and a quote are n backslashes and an opening or closing
   quote; 2n + 1 backslashes and a quote are n backslashes and a literal quote; other backslashes
   are literal; a doubled quote inside quotes is one literal quote.
   */
  function ParseArgument(s: Text, quoted: bool): (r: Piece)
    ensures |r.rest| <= |s|
    decreases |s|
  {
    var n := LeadingSlashes(s);
    var t := s[n..];
    if t != [] && t[0] == QUOTE then
      if n % 2 == 1 then
        var p := ParseArgument(t[1..], quoted);
        Piece(Slashes(n / 2) + [QUOTE] + p.text, p.rest)
      else if quoted && |t| > 1 && t[1] == QUOTE then
        var p := ParseArgument(t[2..], quoted);
        Piece(Slashes(n / 2) + [QUOTE] + p.text, p.rest)
      else
        var p := ParseArgument(t[1..], !quoted);
        Piece(Slashes(n / 2) + p.text, p.rest)
    else if t == [] || (!quoted && Blank(t[0])) then Piece(Slashes(n), t)
    else
      var p := ParseArgument(t[1..], quoted);
      Piece(Slashes(n) + [t[0]] + p.text, p.rest)
  }

  function SkipBlanks(s: Text): (r: Text)
    ensures |r| <= |s|
    ensures r != [] ==> !Blank(r[0])
  {
    if s != [] && Blank(s[0]) then SkipBlanks(s[1..]) else s
  }

  /** The first character of an argument that does not start with a blank is always consumed. */
  lemma ParseArgumentAdvances(s: Text)
    requires s != [] && !Blank(s[0])
    ensures |ParseArgument(s, false).rest| < |s|
  {
  }

  function ParseArguments(s: Text): seq<Text>
    decreases |s|
  {
    var t := SkipBlanks(s);
    if t == [] then []
    else
      ParseArgumentAdvances(t);
      var p := ParseArgument(t, false);
      [p.text] + ParseArguments(p.rest)
  }

  function Parse(line: Text): seq<Text> {
    var p := ParseProgram(line, false);
    [p.text] + ParseArguments(p.rest)
  }

  // -------------------------------------------------------------------------
  // round trip

  lemma {:induction false} LeadingSlashesRun(n: nat, rest: Text)
    requires rest == [] || rest[0] != BACKSLASH
    ensures LeadingSlashes(Slashes(n) + rest) == n
    ensures (Slashes(n) + rest)[n..] == rest
    decreases n
  {
    if n == 0 {
      assert Slashes(n) + rest == rest;
    } else {
      assert (Slashes(n) + rest)[1..] == Slashes(n - 1) + rest;
      LeadingSlashesRun(n - 1, rest);
    }
  }

  lemma ParsePlain(n: nat, c: wchar, next: Text, quoted: bool)
    requires c != BACKSLASH && c != QUOTE && (quoted || !Blank(c))
    ensures var p := ParseArgument(next, quoted);
      ParseArgument(Slashes(n) + ([c] + next), quoted) == Piece(Slashes(n) + [c] + p.text, p.rest)
  {
    var tail := [c] + next;
    LeadingSlashesRun(n, tail);
    assert tail[1..] == next;
  }

  lemma ParseLiteralQuote(n: nat, next: Text, quoted: bool)
    ensures var p := ParseArgument(next, quoted);
      ParseArgument(Slashes(2 * n + 1) + ([QUOTE] + next), quoted) == Piece(Slashes(n) + [QUOTE] + p.text, p.rest)
  {
    var tail := [QUOTE] + next;
    LeadingSlashesRun(2 * n + 1, tail);
    assert tail[1..] == next;
    assert (2 * n + 1) % 2 == 1 && (2 * n + 1) / 2 == n;
  }

  lemma ParseClosing(n: nat, after: Text)
    requires after == [] || Blank(after[0])
    ensures ParseArgument(Slashes(2 * n) + ([QUOTE] + after), true) == Piece(Slashes(n), after)
  {
    var tail := [QUOTE] + after;
    LeadingSlashesRun(2 * n, tail);
    assert tail[1..] == after;
    assert 2 * n % 2 == 0 && 2 * n / 2 == n;
    assert LeadingSlashes(after) == 0 && after[0..] == after;
    assert ParseArgument(after, false) == Piece(Slashes(0), after);
    assert Slashes(n) + Slashes(0) == Slashes(n);
  }

  /** Moving the first character over to the pending backslashes. */
  lemma SlashesShift(n: nat, arg: Text)
    requires arg != []
    ensures Slashes(n) + [arg[0]] + arg[1..] == Slashes(n) + arg
    ensures arg[0] == BACKSLASH ==> Slashes(n + 1) + arg[1..] == Slashes(n) + arg
    ensures Slashes(0) + arg[1..] == arg[1..]
  {
  }

  /** Inside quotes, the body and its closing quote read back as the pending backslashes and the argument. */
  lemma {:induction false} BodyReadsBack(arg: Text, pending: nat, after: Text)
    requires after == [] || Blank(after[0])
    ensures ParseArgument(Body(arg, pending, false) + ([QUOTE] + after), true) == Piece(Slashes(pending) + arg, after)
    decreases |arg|
  {
    if arg == [] {
      ParseClosing(pending, after);
      assert Slashes(pending) + arg == Slashes(pending);
    } else if arg[0] == BACKSLASH {
      BodyReadsBack(arg[1..], pending + 1, after);
      SlashesShift(pending, arg);
    } else {
      var body, end := Body(arg[1..], 0, false), [QUOTE] + after;
      BodyReadsBack(arg[1..], 0, after);
      SlashesShift(pending, arg);
      UnitReadsBack(arg[0], pending, body, end);
    }
  }

  /** One unit reads back as its backslashes and its character. */
  lemma UnitReadsBack(c: wchar, pending: nat, body: Text, end: Text)
    requires c != BACKSLASH
    ensures var p := ParseArgument(body + end, true);
      ParseArgument(Unit(c, pending, false) + body + end, true) == Piece(Slashes(pending) + [c] + p.text, p.rest)
  {
    var next := body + end;
    if c == QUOTE {
      assert Unit(c, pending, false) == Slashes(2 * pending + 1) + [QUOTE];
      assert Unit(c, pending, false) + body + end == Slashes(2 * pending + 1) + ([QUOTE] + next);
      ParseLiteralQuote(pending, next, true);
    } else {
      assert Unit(c, pending, false) + body + end == Slashes(pending) + ([c] + next);
      ParsePlain(pending, c, next, true);
    }
  }

  /** A program name without quotes is written as it is. */
  lemma {:induction false} ProgramBody(arg: Text, pending: nat)
    requires QUOTE !in arg
    ensures Body(arg, pending, true) == Slashes(pending) + arg
    decreases |arg|
  {
    if arg != [] {
      SlashesShift(pending, arg);
      ProgramBody(arg[1..], if arg[0] == BACKSLASH then pending + 1 else 0);
    }
  }

  lemma {:induction false} ProgramReadsBack(arg: Text, after: Text)
    requires QUOTE !in arg && (after == [] || Blank(after[0]))
    ensures ParseProgram(arg + ([QUOTE] + after), true) == Piece(arg, after)
    decreases |arg|
  {
    var end := [QUOTE] + after;
    if arg == [] {
      assert arg + end == end && end[1..] == after;
    } else {
      assert (arg + end)[1..] == arg[1..] + end;
      ProgramReadsBack(arg[1..], after);
      assert [arg[0]] + arg[1..] == arg;
    }
  }

  /** The arguments after the program name. */
  function Tail(args: seq<Text>): Text {
    if args == [] then [] else Quoted(args[0], false) + Tail(args[1..])
  }

  function Line(args: seq<Text>): Text {
    if args == [] then [] else Quoted(args[0], true) + Tail(args[1..])
  }

  /** A quoted argument, apart from its separator, regrouped around its body. */
  lemma QuotedRegroup(arg: Text, first: bool, rest: Text)
    ensures Quoted(arg, first) + rest
         == (if first then [] else [SPACE]) + ([QUOTE] + (Body(arg, 0, first) + ([QUOTE] + rest)))
  {
  }

  lemma QuotedReadsBack(arg: Text, rest: Text)
    requires rest == [] || Blank(rest[0])
    ensures ParseArgument([QUOTE] + (Body(arg, 0, false) + ([QUOTE] + rest)), false) == Piece(arg, rest)
  {
    var body := Body(arg, 0, false) + ([QUOTE] + rest);
    BodyReadsBack(arg, 0, rest);
    var t := [QUOTE] + body;
    assert LeadingSlashes(t) == 0 && t[0..] == t && t[1..] == body;
    assert Slashes(0) + arg == arg;
    assert Slashes(0) + (Slashes(0) + arg) == arg;
  }

  lemma {:induction false} TailReadsBack(args: seq<Text>)
    ensures ParseArguments(Tail(args)) == args
    ensures Tail(args) == [] || Blank(Tail(args)[0])
    decreases |args|
  {
    if args != [] {
      TailReadsBack(args[1..]);
      var rest := Tail(args[1..]);
      var quoted := [QUOTE] + (Body(args[0], 0, false) + ([QUOTE] + rest));
      QuotedRegroup(args[0], false, rest);
      assert Tail(args)[1..] == quoted;
      assert SkipBlanks(Tail(args)) == quoted;
      QuotedReadsBack(args[0], rest);
      assert [args[0]] + args[1..] == args;
    }
  }

  /** Every argument list with a quote-free program name survives quoting and parsing. */
  lemma RoundTrip(args: seq<Text>)
    requires args != [] && QUOTE !in args[0]
    ensures Parse(Line(args)) == args
  {
    TailReadsBack(args[1..]);
    var rest := Tail(args[1..]);
    ProgramBody(args[0], 0);
    assert Slashes(0) + args[0] == args[0];
    var inner := args[0] + ([QUOTE] + rest);
    QuotedRegroup(args[0], true, rest);
    assert Line(args) == [QUOTE] + inner;
    assert Line(args)[1..] == inner;
    ProgramReadsBack(args[0], rest);
    assert [args[0]] + args[1..] == args;
  }

  lemma {:induction false} TailAppend(args: seq<Text>, arg: Text)
    ensures Tail(args + [arg]) == Tail(args) + Quoted(arg, false)
    decreases |args|
  {
    if args == [] {
      assert args + [arg] == [arg];
    } else {
      assert (args + [arg])[1..] == args[1..] + [arg];
      TailAppend(args[1..], arg);
    }
  }

  /** One more appended argument is one more quoted argument on the line. */
  lemma LineAppend(args: seq<Text>, arg: Text)
    ensures Line(args + [arg]) == Line(args) + Quoted(arg, args == [])
    ensures args != [] ==> |Line(args)| > 0
  {
    if args == [] {
      assert args + [arg] == [arg] && [arg][1..] == [];
      assert Tail([]) == [];
      assert Line([arg]) == Quoted(arg, true);
    } else {
      var all := args + [arg];
      assert all[1..] == args[1..] + [arg] && all[0] == args[0];
      TailAppend(args[1..], arg);
      var first, tail, last := Quoted(args[0], true), Tail(args[1..]), Quoted(arg, false);
      assert Line(all) == first + (tail + last) == first + tail + last;
      assert Line(args) == first + tail;
    }
  }

  lemma LineGrows(args: seq<Text>, k: nat)
    requires k < |args|
    ensures |Line(args[..k])| <= |Line(args[..k + 1])|
  {
    assert args[..k] + [args[k]] == args[..k + 1];
    LineAppend(args[..k], args[k]);
  }

  /** A shorter list makes no longer a line. */
  lemma {:induction false} PrefixFits(args: seq<Text>, k: nat)
    requires k <= |args|
    ensures |Line(args[..k])| <= |Line(args)|
    decreases |args| - k
  {
    if k == |args| {
      assert args[..k] == args;
    } else {
      LineGrows(args, k);
      PrefixFits(args, k + 1);
    }
  }

  /**
   Building a whole command line, stopping at the first refused argument. What was accepted is on
   the line, terminated, and the runtime reads exactly it back.
   */
  method Build(command: array<wchar>, args: seq<Text>) returns (accepted: nat, used: nat)
    requires command.Length > LIMIT
    requires forall i :: 0 <= i < |args| ==> IsString(args[i])
    modifies command
    ensures accepted <= |args| && used <= LIMIT
    ensures command[..used] == Line(args[..accepted])
    ensures accepted > 0 ==> command[used] == NUL && Parse(command[..used]) == args[..accepted]
    ensures accepted < |args| ==> !Accepts(used, args[accepted])
    ensures accepted == |args| <==> args == [] || (QUOTE !in args[0] && |Line(args)| <= LIMIT)
  {
    accepted, used := 0, 0;
    while accepted < |args|
      invariant accepted <= |args| && used <= LIMIT
      invariant command[..used] == Line(args[..accepted])
      invariant accepted > 0 ==> command[used] == NUL && QUOTE !in args[0]
    {
      LineAppend(args[..accepted], args[accepted]);
      assert args[..accepted] + [args[accepted]] == args[..accepted + 1];
      var ok, now := AppendArgument(command, used, args[accepted]);
      if !ok {
        PrefixFits(args, accepted + 1);
        break;
      }
      used := now;
      accepted := accepted + 1;
    }
    if accepted > 0 {
      RoundTrip(args[..accepted]);
    }
    assert args[..|args|] == args;
  }
}

/** The characters that mean something in a configuration file, and a short file with all of them. */
module ConfigSample {
  import opened Common
  import opened ConfigParser
  import opened ConfigRoundTrip
  import S = ConfigScan

  /** The character codes of a text. */
  function Codes(s: string): (r: seq<int>)
    ensures |r| == |s| && forall i | 0 <= i < |s| :: r[i] == s[i] as int
  {
    seq(|s|, i requires 0 <= i < |s| => s[i] as int)
  }

  lemma {:induction false} Letters(ch: int)
    ensures IsSpace(ch) <==> ch == 9 || ch == 10 || ch == 11 || ch == 12 || ch == 13 || ch == 32
    ensures IsDigit(ch) <==> '0' as int <= ch <= '9' as int
    ensures IsXDigit(ch) <==> '0' as int <= ch <= '9' as int || 'a' as int <= ch <= 'f' as int || 'A' as int <= ch <= 'F' as int
    ensures IsNameChar(ch) <==>
      '0' as int <= ch <= '9' as int || 'a' as int <= ch <= 'z' as int || 'A' as int <= ch <= 'Z' as int || ch == '_' as int
  {
  }

  lemma {:induction false} Signs()
    ensures [EOF, NEWLINE, HASH, BACKSLASH] == [-1, '\n' as int, '#' as int, '\\' as int] && TEMP_BUF_LEN == 512
  {
  }

  /** A command with one value of every kind. */
  const BLOCK: seq<Command> := [Command([99], [])]
  const VALUES: seq<Value> :=
    [Integer(10), Boolean(true), Boolean(false), Str([34, 92, 35]), Reference([98]), List([Integer(0)]), Commands(BLOCK)]
  const SAMPLE: seq<Command> := [Command([97], VALUES)]
  const TEXT: string :=
    "a" + (" 10" + (" true" + (" false" + (" \"\\\"\\\\#\"" + (" $b" + (" [ 0]" + " {c\n}")))))) + "\n"

  /** A space and a value. */
  function Shown(v: Value): seq<int> {
    [SPACE] + [First(v)] + Rest(v)
  }

  lemma {:induction false} PlainParts()
    ensures Shown(Integer(10)) == [32, 49, 48] && Shown(Integer(0)) == [32, 48]
    ensures Shown(Boolean(true)) == [32, 116, 114, 117, 101] && Shown(Boolean(false)) == [32, 102, 97, 108, 115, 101]
    ensures Shown(Reference([98])) == [32, 36, 98]
  {
    assert Digits(1) == [49] && Digits(10) == [49, 48] && Digits(0) == [48];
  }

  lemma {:induction false} TextPart()
    ensures Shown(Str([34, 92, 35])) == [32, 34, 92, 34, 92, 92, 35, 34]
  {
    assert [34, 92, 35][1..] == [92, 35] && [92, 35][1..] == [35] && [35][1..] == [];
    assert Escape([35]) == [35] && Escape([92, 35]) == [92, 92, 35] && Escape([34, 92, 35]) == [92, 34, 92, 92, 35];
  }

  lemma {:induction false} NestedParts()
    ensures Shown(List([Integer(0)])) == [32, 91, 32, 48, 93] && Shown(Commands(BLOCK)) == [32, 123, 99, 10, 125]
  {
    hide RenderArgs, RenderCommands;
    ListPart();
    BlockPart();
  }

  lemma {:induction false} ListPart()
    ensures RenderArgs([Integer(0)]) == [32, 48]
  {
    hide Shown, RenderArgs;
    PlainParts();
    NoArgs();
    OneArg([Integer(0)]);
    assert [Integer(0)][1..] == [] && [32, 48] + [] == [32, 48];
  }

  lemma {:induction false} BlockPart()
    ensures RenderCommands(BLOCK) == [99, 10]
  {
    assert RenderArgs([]) == [] && RenderCommands(BLOCK[1..]) == [];
  }

  lemma {:induction false} OneArg(vs: seq<Value>)
    requires vs != []
    ensures RenderArgs(vs) == Shown(vs[0]) + RenderArgs(vs[1..])
  {
    hide First, Rest;
  }

  /** The values of the command, one after the other. */
  lemma {:induction false} SampleArgs()
    ensures RenderArgs(VALUES) == Shown(VALUES[0]) + (Shown(VALUES[1]) + (Shown(VALUES[2]) + (Shown(VALUES[3])
      + (Shown(VALUES[4]) + (Shown(VALUES[5]) + Shown(VALUES[6]))))))
  {
    hide Shown, RenderArgs;
    var v1, v2, v3, v4, v5, v6 := VALUES[1..], VALUES[2..], VALUES[3..], VALUES[4..], VALUES[5..], VALUES[6..];
    assert v1[1..] == v2 && v2[1..] == v3 && v3[1..] == v4 && v4[1..] == v5 && v5[1..] == v6 && v6[1..] == [];
    NoArgs();
    OneArg(v6);
    OneArg(v5);
    OneArg(v4);
    OneArg(v3);
    OneArg(v2);
    OneArg(v1);
    OneArg(VALUES);
    assert Shown(VALUES[6]) + [] == Shown(VALUES[6]);
  }

  lemma {:induction false} NoArgs()
    ensures RenderArgs([]) == []
  {
  }

  lemma {:induction false} SampleCodes()
    ensures RenderCommands(SAMPLE) == Codes(TEXT)
  {
    hide RenderCommands, RenderArgs, Shown, Codes;
    SampleArgs();
    SampleLine();
    Pieces();
    PlainParts();
    TextPart();
    NestedParts();
    var t6 := " [ 0]" + " {c\n}";
    var t5 := " $b" + t6;
    var t4 := " \"\\\"\\\\#\"" + t5;
    var t3 := " false" + t4;
    var t2 := " true" + t3;
    var t1 := " 10" + t2;
    CodesJoin(" [ 0]", " {c\n}");
    CodesJoin(" $b", t6);
    CodesJoin(" \"\\\"\\\\#\"", t5);
    CodesJoin(" false", t4);
    CodesJoin(" true", t3);
    CodesJoin(" 10", t2);
    CodesJoin("a", t1);
    CodesJoin("a" + t1, "\n");
    Assoc([97], Codes(t1), [10]);
  }

  lemma {:induction false} CodesJoin(a: string, b: string)
    ensures Codes(a + b) == Codes(a) + Codes(b)
  {
  }

  lemma {:induction false} Pieces()
    ensures Codes("a") == [97]
    ensures Codes(" 10") == [32, 49, 48]
    ensures Codes(" true") == [32, 116, 114, 117, 101]
    ensures Codes(" false") == [32, 102, 97, 108, 115, 101]
    ensures Codes(" \"\\\"\\\\#\"") == [32, 34, 92, 34, 92, 92, 35, 34]
    ensures Codes(" $b") == [32, 36, 98]
    ensures Codes(" [ 0]") == [32, 91, 32, 48, 93]
    ensures Codes(" {c\n}") == [32, 123, 99, 10, 125]
    ensures Codes("\n") == [10]
  {
  }

  lemma {:induction false} SampleLine()
    ensures RenderCommands(SAMPLE) == [97] + (RenderArgs(VALUES) + [10])
  {
    hide RenderArgs;
    assert SAMPLE[1..] == [] && RenderCommands([]) == [] && [10] + [] == [10];
  }

  /** Such a file parses to that command. */
  lemma {:induction false} SampleParsed()
    ensures ParseCommands(State(Codes(TEXT), [], 0, false)) == Ok(SAMPLE, State([], [], 0, false))
  {
    hide ParseCommands, Codes, RenderCommands;
    SampleCodes();
    SampleWellFormed();
    ParseBack(SAMPLE);
  }

  lemma {:induction false} SampleWellFormed()
    ensures CommandsWellFormed(SAMPLE, false)
  {
    assert BLOCK[1..] == [] && CommandsWellFormed(BLOCK, true);
    assert [Integer(0)][1..] == [] && WellFormed(List([Integer(0)])) && WellFormed(Commands(BLOCK));
    assert forall v | v in VALUES :: WellFormed(v);
    AllOk(VALUES);
    assert SAMPLE[1..] == [];
  }

  lemma {:induction false} AllOk(vs: seq<Value>)
    requires forall v | v in vs :: WellFormed(v)
    ensures AllWellFormed(vs)
  {
    hide WellFormed;
    if vs != [] {
      AllOk(vs[1..]);
    }
  }

  // ---- files that are accepted and refused ----

  /** How the parse of a file ends: well, or with an error. */
  predicate Parses(text: string, ok: bool) {
    var r := ParseCommands(State(Codes(text), [], 0, false));
    if ok then r.Ok? else r.Error?
  }

  /** What is open inside the values of a command of the file. */
  function InArgs(escaped: bool, needSpace: bool): S.Stack {
    S.On(S.Args(true, escaped, needSpace), InFile([]))
  }

  function InFile(name: seq<int>): S.Stack {
    S.On(S.Names(false, name), S.Bottom)
  }

  lemma {:induction false} Fed(stack: S.Stack, ch: int, next: S.Stack, text: seq<int>)
    requires text != [] && text[0] == ch > 0 && ch != HASH && S.Feed(stack, ch) == S.Now(next)
    ensures S.Scan(stack, text) == S.Scan(next, text[1..])
  {
    hide S.Feed;
  }

  lemma {:induction false} FedName(text: seq<int>)
    requires |text| > 2 && text[0] == 97 && text[1] == 32
    ensures S.Scan(InFile([]), text) == S.Scan(InArgs(false, false), text[2..])
  {
    hide S.Scan;
    assert [] + [97] == [97];
    Fed(InFile([]), 97, InFile([97]), text);
    Fed(InFile([97]), 32, InArgs(false, false), text[1..]);
    assert text[1..][1..] == text[2..];
  }

  /** Between two values there is white space. */
  lemma {:induction false} SpaceNeeded()
    ensures Parses("a true1\n", false)
  {
    hide ParseCommands, S.Scan;
    var text := Codes("a true1\n");
    S.ParseEnds(text, []);
    FedName(text);
    var k := InArgs(false, true);
    Fed(InArgs(false, false), 116, S.On(S.Word([114, 117, 101]), k), text[2..]);
    Fed(S.On(S.Word([114, 117, 101]), k), 114, S.On(S.Word([117, 101]), k), text[2..][1..]);
    Fed(S.On(S.Word([117, 101]), k), 117, S.On(S.Word([101]), k), text[2..][1..][1..]);
    Fed(S.On(S.Word([101]), k), 101, k, text[2..][1..][1..][1..]);
    Unfed(k, text[2..][1..][1..][1..][1..]);
  }

  lemma {:induction false} Unfed(stack: S.Stack, text: seq<int>)
    requires text != [] && text[0] > 0 && text[0] != HASH && S.Feed(stack, text[0]) == S.Unexpected
    ensures S.Scan(stack, text) == S.Rejected([])
  {
    hide S.Feed;
  }

  /** 9 is no octal digit. */
  lemma {:induction false} OctalOnly()
    ensures Parses("a 09\n", false)
  {
    hide ParseCommands, S.Scan;
    var text := Codes("a 09\n");
    S.ParseEnds(text, []);
    FedName(text);
    Fed(InArgs(false, false), 48, S.On(S.Zero, InArgs(false, true)), text[2..]);
    Unfed(S.On(S.Zero, InArgs(false, true)), text[2..][1..]);
  }

  /** A comment, an empty line, a tab and a line that goes on behind a backslash. */
  lemma {:induction false} Layout()
    ensures Parses("#b\n\ta \\\n1", true)
  {
    hide ParseCommands, S.Scan;
    var text := Codes("#b\n\ta \\\n1");
    S.ParseEnds(text, []);
    Comment(text);
    var rest := text[3..];
    Fed(InFile([]), 9, InFile([]), rest);
    FedName(rest[1..]);
    var args := rest[1..][2..];
    Fed(InArgs(false, false), 92, InArgs(true, false), args);
    Fed(InArgs(true, false), 10, InArgs(false, false), args[1..]);
    Fed(InArgs(false, false), 49, S.On(S.Number(10), InArgs(false, true)), args[1..][1..]);
    Ends(S.On(S.Number(10), InArgs(false, true)), args[1..][1..][1..]);
  }

  lemma {:induction false} Comment(text: seq<int>)
    requires |text| > 3 && text[0] == HASH && text[1] == 98 && text[2] == 10
    ensures S.Scan(InFile([]), text) == S.Scan(InFile([]), text[3..])
  {
    assert text[1..][1..] == text[2..] && text[2..][1..] == text[3..];
    assert SkipComment(text[2..]) == Some(text[3..]) && SkipComment(text[1..]) == Some(text[3..]);
    assert S.Feed(InFile([]), 10) == S.Now(InFile([]));
  }

  lemma {:induction false} Ends(stack: S.Stack, text: seq<int>)
    requires text == []
    ensures S.Scan(stack, text) == S.Finish(stack)
  {
  }

  /** A block ends at its brace, behind a name */
  lemma {:induction false} BraceBehindName()
    ensures Parses("a {c}", true)
  {
    hide ParseCommands, S.Scan;
    var text, k := Codes("a {c}"), InArgs(false, true);
    S.ParseEnds(text, []);
    FedName(text);
    BlockName(text[2..]);
    Fed(S.On(S.Names(true, [99]), k), 125, k, text[2..][2..]);
    Ends(k, text[2..][2..][1..]);
  }

  /** or a value. */
  lemma {:induction false} BraceBehindValue()
    ensures Parses("a {c 1}", true)
  {
    hide ParseCommands, S.Scan;
    var text, k := Codes("a {c 1}"), InArgs(false, true);
    S.ParseEnds(text, []);
    FedName(text);
    BlockName(text[2..]);
    BlockValue(k, text[2..][2..]);
    Ends(k, text[2..][2..][3..]);
  }

  lemma {:induction false} BlockValue(k: S.Stack, text: seq<int>)
    requires |text| == 3 && text[0] == 32 && text[1] == 49 && text[2] == 125
    ensures S.Scan(S.On(S.Names(true, [99]), k), text) == S.Scan(k, text[3..])
  {
    hide S.Scan;
    var m := S.On(S.Names(true, []), k);
    var args := S.On(S.Args(true, false, true), m);
    assert S.Feed(m, 125) == S.Now(k);
    assert S.Feed(args, 125) == S.Now(k);
    Fed(S.On(S.Names(true, [99]), k), 32, S.On(S.Args(true, false, false), m), text);
    Fed(S.On(S.Args(true, false, false), m), 49, S.On(S.Number(10), args), text[1..]);
    Fed(S.On(S.Number(10), args), 125, k, text[2..]);
    assert text[1..][1..] == text[2..] && text[2..][1..] == text[3..];
  }

  lemma {:induction false} BlockName(text: seq<int>)
    requires |text| > 2 && text[0] == 123 && text[1] == 99
    ensures S.Scan(InArgs(false, false), text) == S.Scan(S.On(S.Names(true, [99]), InArgs(false, true)), text[2..])
  {
    hide S.Scan;
    assert [] + [99] == [99];
    Fed(InArgs(false, false), 123, S.On(S.Names(true, []), InArgs(false, true)), text);
    Fed(S.On(S.Names(true, []), InArgs(false, true)), 99, S.On(S.Names(true, [99]), InArgs(false, true)), text[1..]);
    assert text[1..][1..] == text[2..];
  }

  /** A list, a string and a block that do not end, and a variable without a name. */
  lemma {:induction false} OpenEnds()
    ensures Parses("a [", false) && Parses("a \"", false) && Parses("a {", false) && Parses("a $", false)
  {
    hide ParseCommands, S.Scan;
    var k := InArgs(false, true);
    OneOpen("a [", S.On(S.Args(false, false, false), k));
    OneOpen("a \"", S.On(S.Text(false, 0), k));
    OneOpen("a {", S.On(S.Names(true, []), k));
    OneOpen("a $", S.On(S.Variable(0), k));
  }

  lemma {:induction false} OneOpen(text: string, open: S.Stack)
    requires |text| == 3 && text[0] == 'a' && text[1] == ' ' && text[2] > '\0' && text[2] != '#'
    requires S.Feed(InArgs(false, false), text[2] as int) == S.Now(open) && S.Finish(open).Rejected?
    ensures Parses(text, false)
  {
    hide ParseCommands, S.Scan, S.Feed, S.Finish;
    var codes := Codes(text);
    S.ParseEnds(codes, []);
    FedName(codes);
    Fed(InArgs(false, false), codes[2], open, codes[2..]);
    Ends(open, codes[2..][1..]);
  }
}

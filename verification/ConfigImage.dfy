/** Which command lists the parser can return: exactly the well-formed ones. */
module ConfigImage {
  import opened Common
  import opened ConfigParser
  import opened ConfigRoundTrip

  /** Characters of a file: anything but NUL, and an end of file that was returned. */
  predicate Clean(st: seq<int>) {
    forall k | 0 <= k < |st| :: st[k] > 0 || st[k] == EOF
  }

  /** Between tokens, with these characters to come. */
  predicate Tidy(s: State) {
    Ready(s) && Clean(s.stream)
  }

  // ---- characters ----

  lemma {:induction false} SkipClean(st: seq<int>)
    requires Clean(st) && SkipComment(st).Some?
    ensures Clean(SkipComment(st).value)
  {
    if st != [] && st[0] != NEWLINE {
      SkipClean(st[1..]);
    }
  }

  lemma {:induction false} ReadClean(s: State)
    requires Clean(s.stream) && Read(s).Some?
    ensures var (ch, s') := Read(s).value; Clean(s'.stream) && (ch > 0 || ch == EOF) && (ch == HASH ==> s.ignore)
  {
    if s.stream != [] && s.stream[0] == HASH && !s.ignore {
      SkipClean(s.stream[1..]);
    }
  }

  lemma {:induction false} PutPlain(t: seq<int>, ch: int)
    requires Plain(t) && ch > 0
    ensures Plain(t + [ch])
  {
  }

  // ---- tokens ----

  lemma {:induction false} DigitsParsed(ch: int, base: nat, result: nat, s: State)
    requires Tidy(s) && (ch > 0 || ch == EOF) && result < U64 && ParseDigits(ch, base, result, s).Ok?
    ensures var r := ParseDigits(ch, base, result, s); r.value < U64 && Tidy(r.s)
    decreases Left(s) + (if ch == EOF then 0 else 1)
  {
    if IsXDigit(ch) && DigitValue(ch) < base {
      ReadClean(s);
      var (next, s') := Read(s).value;
      DigitsParsed(next, base, (result * base + DigitValue(ch)) % U64, s');
    }
  }

  lemma {:induction false} IntegerParsed(ch: int, s: State)
    requires IsDigit(ch) && Tidy(s) && ParseInteger(ch, s).Ok?
    ensures var r := ParseInteger(ch, s); r.value < U64 && Tidy(r.s)
  {
    if ch == ZERO {
      ReadClean(s);
      var (x, s') := Read(s).value;
      if ToLower(x) == 120 {
        ReadClean(s');
        var (y, s'') := Read(s').value;
        DigitsParsed(y, 16, 0, s'');
      } else {
        DigitsParsed(x, 8, 0, s');
      }
    } else {
      DigitsParsed(ch, 10, 0, s);
    }
  }

  lemma {:induction false} TextParsed(escaped: bool, s: State)
    requires Clean(s.stream) && Plain(s.temp) && s.ignore && ParseText(escaped, s).Ok?
    ensures var r := ParseText(escaped, s); Short(r.value) && Plain(r.value) && Tidy(r.s)
    decreases Left(s)
  {
    ReadClean(s);
    var (ch, s') := Read(s).value;
    if !escaped && ch == QUOTE {
      PlainIsCString(s.temp);
    } else if !escaped && ch == BACKSLASH {
      TextParsed(true, s');
    } else {
      PutPlain(s.temp, ch);
      TextParsed(false, s'.(temp := s.temp + [ch]));
    }
  }

  lemma {:induction false} NameParsed(s: State)
    requires Clean(s.stream) && !s.ignore && (forall k | 0 <= k < |s.temp| :: IsNameChar(s.temp[k])) && ParseName(s).Ok?
    ensures var r := ParseName(s); WellFormed(Reference(r.value)) && Tidy(r.s)
    decreases Left(s)
  {
    ReadClean(s);
    var (ch, s') := Read(s).value;
    if IsNameChar(ch) {
      NameParsed(s'.(temp := s.temp + [ch]));
    } else {
      PlainIsCString(s.temp);
    }
  }

  lemma {:induction false} WordParsed(word: seq<int>, s: State)
    requires Tidy(s) && Expect(word, s).Ok?
    ensures var r := Expect(word, s); Tidy(r.s)
    decreases |word|
  {
    if word != [] {
      ReadClean(s);
      WordParsed(word[1..], Read(s).value.1);
    }
  }

  // ---- values and commands ----

  lemma {:induction false} OneMore(vs: seq<Value>, v: Value)
    requires AllWellFormed(vs) && WellFormed(v)
    ensures AllWellFormed(vs + [v])
  {
    if vs == [] {
      assert [v][1..] == [];
    } else {
      OneMore(vs[1..], v);
      assert (vs + [v])[1..] == vs[1..] + [v];
    }
  }

  lemma {:induction false} OneMoreCommand(cs: seq<Command>, c: Command, nested: bool)
    requires CommandsWellFormed(cs, nested) && NameOk(c.name, nested) && AllWellFormed(c.args)
    ensures CommandsWellFormed(cs + [c], nested)
  {
    if cs == [] {
      assert [c][1..] == [];
    } else {
      OneMoreCommand(cs[1..], c, nested);
      assert (cs + [c])[1..] == cs[1..] + [c];
    }
  }

  lemma {:induction false} ValueParsed(ch: int, s: State)
    requires ch != EOF && Tidy(s) && ParseValue(ch, s).Ok?
    ensures var r := ParseValue(ch, s); WellFormed(r.value) && Tidy(r.s)
    decreases Left(s), 4
  {
    var s1 := s.(nesting := s.nesting + 1);
    if IsDigit(ch) {
      IntegerParsed(ch, s);
    } else if ch == 116 {
      WordParsed(RUE, s);
    } else if ch == 102 {
      WordParsed(ALSE, s);
    } else if ch == QUOTE {
      TextParsed(false, s1.(ignore := true));
    } else if ch == OPEN_LIST {
      ValuesParsed(false, false, false, [], s1);
    } else if ch == OPEN_BLOCK {
      CommandsParsed(CLOSE_BLOCK, [], s1);
    } else if ch == DOLLAR {
      NameParsed(s);
    }
  }

  lemma {:induction false} ValuesParsed(command: bool, escaped: bool, needSpace: bool, done: seq<Value>, s: State)
    requires Tidy(s) && AllWellFormed(done) && ParseValues(command, escaped, needSpace, done, s).Ok?
    ensures var r := ParseValues(command, escaped, needSpace, done, s);
      AllWellFormed(r.value) && Tidy(r.s)
    decreases Left(s), 1
  {
    ReadClean(s);
    var (ch, s') := Read(s).value;
    if !escaped && ch == BACKSLASH {
      ValuesParsed(command, true, needSpace, done, s');
    } else if (!escaped && (ch == NEWLINE || ch == EOF) && command) || (command && ch == CLOSE_BLOCK) || (!command && ch == CLOSE_LIST) {
    } else if IsSpace(ch) {
      ValuesParsed(command, false, false, done, s');
    } else {
      ValueParsed(ch, s');
      var v := ParseValue(ch, s');
      OneMore(done, v.value);
      ValuesParsed(command, false, true, done + [v.value], v.s);
    }
  }

  lemma {:induction false} CommandsParsed(endch: int, done: seq<Command>, s: State)
    requires Clean(s.stream) && !s.ignore && NameChars(s.temp, endch == CLOSE_BLOCK) && CommandsWellFormed(done, endch == CLOSE_BLOCK)
    requires (endch == CLOSE_BLOCK || endch == EOF) && ParseCommandLoop(endch, done, s).Ok?
    ensures var r := ParseCommandLoop(endch, done, s);
      CommandsWellFormed(r.value, endch == CLOSE_BLOCK) && Tidy(r.s)
    decreases Left(s), 2, if s.temp == [] then 0 else 1
  {
    hide WellFormed;
    ReadClean(s);
    var (ch, s') := Read(s).value;
    if ch == endch || IsSpace(ch) {
      if s.temp == [] {
        if ch != endch {
          CommandsParsed(endch, done, s');
        }
      } else {
        CommandParsed(ch, s');
        var c := ParseCommand(ch, s');
        OneMoreCommand(done, c.value, endch == CLOSE_BLOCK);
        CommandsParsed(endch, done + [c.value], c.s);
      }
    } else {
      CommandsParsed(endch, done, s'.(temp := s.temp + [ch]));
    }
  }

  lemma {:induction false} CommandParsed(ch: int, s: State)
    requires Clean(s.stream) && !s.ignore && s.temp != [] && Plain(s.temp) && (ch > 0 || ch == EOF) && ch != HASH && ParseCommand(ch, s).Ok?
    ensures var c := ParseCommand(ch, s); c.value.name == s.temp && |s.temp| < TEMP_BUF_LEN && AllWellFormed(c.value.args) && Tidy(c.s)
    decreases Left(s) + (if ch == EOF then 0 else 1), 2, 0
  {
    PlainIsCString(s.temp);
    ValuesParsed(true, false, false, [], Push(s.(temp := []), ch));
  }

  // ---- the rendered text has no NUL ----

  lemma {:induction false} EscapeIsPlain(t: seq<int>)
    requires Plain(t)
    ensures Plain(Escape(t))
  {
    if t != [] {
      EscapeIsPlain(t[1..]);
    }
  }

  lemma {:induction false} ValueIsPlain(v: Value)
    requires WellFormed(v)
    ensures Plain([First(v)]) && Plain(Rest(v))
    decreases v, 2
  {
    match v {
      case Integer(n) =>
      case Boolean(b) =>
      case Str(text) => EscapeIsPlain(text);
      case List(values) => ArgsArePlain(values);
      case Commands(cmds) => TextIsPlain(cmds, true);
      case Reference(name) =>
    }
  }

  lemma {:induction false} ArgsArePlain(vs: seq<Value>)
    requires AllWellFormed(vs)
    ensures Plain(RenderArgs(vs))
    decreases vs, 1
  {
    if vs != [] {
      ValueIsPlain(vs[0]);
      ArgsArePlain(vs[1..]);
    }
  }

  lemma {:induction false} TextIsPlain(cs: seq<Command>, nested: bool)
    requires CommandsWellFormed(cs, nested)
    ensures Plain(RenderCommands(cs))
    decreases cs, 1
  {
    if cs != [] {
      ArgsArePlain(cs[0].args);
      TextIsPlain(cs[1..], nested);
    }
  }

  // ---- the theorems ----

  /** A command list is the meaning of some text exactly if it is well formed. */
  lemma {:induction false} Image(cs: seq<Command>)
    ensures CommandsWellFormed(cs, false) <==> exists text :: Means(text, cs)
  {
    if CommandsWellFormed(cs, false) {
      ParseBack(cs);
      TextIsPlain(cs, false);
      assert Means(RenderCommands(cs), cs);
    }
    if text :| Means(text, cs) {
      CommandsParsed(EOF, [], State(text, [], 0, false));
    }
  }

  predicate Means(text: seq<int>, cs: seq<Command>) {
    Plain(text) && var r := ParseCommands(State(text, [], 0, false)); r.Ok? && r.value == cs
  }

  /** Writing out what was read and reading it again changes nothing. */
  lemma {:induction false} Normalise(text: seq<int>, cs: seq<Command>)
    requires Means(text, cs)
    ensures Means(RenderCommands(cs), cs)
  {
    Image(cs);
    ParseBack(cs);
    TextIsPlain(cs, false);
  }
}

/** The canonical text of a command list, and that parsing it gives the list back. */
module ConfigRoundTrip {
  import opened Common
  import opened ConfigParser

  // ---- rendering ----

  function Digits(n: nat): (ds: seq<int>)
    ensures ds != [] && forall k | 0 <= k < |ds| :: IsDigit(ds[k])
  {
    if n < 10 then [ZERO + n] else Digits(n / 10) + [ZERO + n % 10]
  }

  function Escape(t: seq<int>): seq<int> {
    if t == [] then []
    else (if t[0] == QUOTE || t[0] == BACKSLASH then [BACKSLASH, t[0]] else [t[0]]) + Escape(t[1..])
  }

  /** The character that starts a value, */
  function First(v: Value): int {
    match v
    case Integer(n) => Digits(n)[0]
    case Boolean(b) => if b then 116 else 102
    case Str(_) => QUOTE
    case List(_) => OPEN_LIST
    case Commands(_) => OPEN_BLOCK
    case Reference(_) => DOLLAR
  }

  /** and what follows it. */
  function Rest(v: Value): seq<int>
    decreases v
  {
    match v
    case Integer(n) => Digits(n)[1..]
    case Boolean(b) => if b then RUE else ALSE
    case Str(text) => Escape(text) + [QUOTE]
    case List(values) => RenderArgs(values) + [CLOSE_LIST]
    case Commands(cmds) => RenderCommands(cmds) + [CLOSE_BLOCK]
    case Reference(name) => name
  }

  /** Each value behind a space. */
  function RenderArgs(vs: seq<Value>): seq<int>
    decreases vs
  {
    if vs == [] then [] else [SPACE] + ([First(vs[0])] + (Rest(vs[0]) + RenderArgs(vs[1..])))
  }

  /** Each command on a line of its own. */
  function RenderCommands(cs: seq<Command>): seq<int>
    decreases cs
  {
    if cs == [] then []
    else cs[0].name + (RenderArgs(cs[0].args) + ([NEWLINE] + RenderCommands(cs[1..])))
  }

  // ---- what can be written down ----

  /** A token that fits the buffer. */
  predicate Short(t: seq<int>) {
    |t| < TEMP_BUF_LEN
  }

  predicate Plain(t: seq<int>) {
    forall k | 0 <= k < |t| :: t[k] > 0
  }

  /** Neither white space nor comment sign, and in a block no closing brace either. */
  predicate NameChars(t: seq<int>, nested: bool) {
    Plain(t) && forall k | 0 <= k < |t| :: !IsSpace(t[k]) && t[k] != HASH && (nested ==> t[k] != CLOSE_BLOCK)
  }

  predicate NameOk(t: seq<int>, nested: bool) {
    t != [] && Short(t) && NameChars(t, nested)
  }

  predicate WellFormed(v: Value)
    decreases v
  {
    match v
    case Integer(n) => n < U64
    case Boolean(_) => true
    case Str(text) => Short(text) && Plain(text)
    case List(values) => AllWellFormed(values)
    case Commands(cmds) => CommandsWellFormed(cmds, true)
    case Reference(name) => name != [] && Short(name) && forall k | 0 <= k < |name| :: IsNameChar(name[k])
  }

  predicate AllWellFormed(vs: seq<Value>)
    decreases vs
  {
    vs == [] || (WellFormed(vs[0]) && AllWellFormed(vs[1..]))
  }

  predicate CommandsWellFormed(cs: seq<Command>, nested: bool)
    decreases cs
  {
    cs == [] || (NameOk(cs[0].name, nested) && AllWellFormed(cs[0].args) && CommandsWellFormed(cs[1..], nested))
  }

  // ---- single steps ----

  /** Reading an ordinary character takes it off the stream. */
  lemma {:induction false} ReadFirst(s: State, ch: int, tail: seq<int>)
    requires s.stream == [ch] + tail && (ch != HASH || s.ignore)
    ensures Read(s) == Some((ch, s.(stream := tail)))
  {
  }

  lemma {:induction false} PushBack(s: State, ch: int, tail: seq<int>)
    requires s.stream == tail && ch != 0
    ensures Push(s, ch) == s.(stream := [ch] + tail)
  {
  }

  lemma {:induction false} PlainIsCString(t: seq<int>)
    requires Plain(t)
    ensures CString(t) == t
  {
    if t != [] {
      PlainIsCString(t[1..]);
    }
  }

  lemma {:induction false} PlainJoin(x: seq<int>, y: seq<int>)
    requires Plain(x) && Plain(y)
    ensures Plain(x + y)
  {
  }

  lemma {:induction false} Cons(t: seq<int>, more: seq<int>)
    requires t != []
    ensures t + more == [t[0]] + (t[1..] + more)
  {
  }

  // ---- integers ----

  /** What reading decimal digits adds up to. */
  function NumberOf(ds: seq<int>, acc: nat): nat {
    if ds == [] then acc else if IsDigit(ds[0]) then NumberOf(ds[1..], acc * 10 + DigitValue(ds[0])) else acc
  }

  lemma {:induction false} NumberSnoc(ds: seq<int>, d: int, acc: nat)
    requires IsDigit(d) && forall k | 0 <= k < |ds| :: IsDigit(ds[k])
    ensures NumberOf(ds + [d], acc) == NumberOf(ds, acc) * 10 + DigitValue(d)
  {
    if ds == [] {
      assert ds + [d] == [d];
    } else {
      assert (ds + [d])[1..] == ds[1..] + [d];
      NumberSnoc(ds[1..], d, acc * 10 + DigitValue(ds[0]));
    }
  }

  lemma {:induction false} DigitsNumber(n: nat)
    ensures NumberOf(Digits(n), 0) == n
  {
    if n >= 10 {
      DigitsNumber(n / 10);
      NumberSnoc(Digits(n / 10), ZERO + n % 10, 0);
    }
  }

  lemma {:induction false} NumberGrows(ds: seq<int>, acc: nat)
    ensures acc <= NumberOf(ds, acc)
  {
    if ds != [] && IsDigit(ds[0]) {
      NumberGrows(ds[1..], acc * 10 + DigitValue(ds[0]));
    }
  }

  /** A character that ends a value. */
  predicate Delimiter(ch: int) {
    ch == SPACE || ch == NEWLINE || ch == CLOSE_LIST
  }

  lemma {:induction false} DigitsBack(ds: seq<int>, acc: nat, s: State, more: seq<int>)
    requires ds != [] && (forall k | 0 <= k < |ds| :: IsDigit(ds[k])) && NumberOf(ds, acc) < U64
    requires s.stream == ds[1..] + more && more != [] && Delimiter(more[0])
    ensures ParseDigits(ds[0], 10, acc, s) == Ok(NumberOf(ds, acc), s.(stream := more))
    decreases |ds|
  {
    var next := acc * 10 + DigitValue(ds[0]);
    NumberGrows(ds[1..], next);
    assert (acc * 10 + DigitValue(ds[0])) % U64 == next;
    if |ds| == 1 {
      assert ds[1..] + more == [more[0]] + more[1..];
      ReadFirst(s, more[0], more[1..]);
      PushBack(s.(stream := more[1..]), more[0], more[1..]);
      assert [more[0]] + more[1..] == more;
    } else {
      Cons(ds[1..], more);
      ReadFirst(s, ds[1], ds[1..][1..] + more);
      DigitsBack(ds[1..], next, s.(stream := ds[1..][1..] + more), more);
    }
  }

  lemma {:induction false} FirstDigit(n: nat)
    requires n > 0
    ensures Digits(n)[0] != ZERO
  {
    if n >= 10 {
      FirstDigit(n / 10);
    }
  }

  lemma {:induction false} IntegerBack(n: nat, s: State, more: seq<int>)
    requires n < U64 && s.stream == Digits(n)[1..] + more && more != [] && Delimiter(more[0]) && !s.ignore
    ensures ParseInteger(Digits(n)[0], s) == Ok(n, s.(stream := more))
  {
    if n == 0 {
      assert Digits(0)[1..] + more == [more[0]] + more[1..];
      ReadFirst(s, more[0], more[1..]);
      PushBack(s.(stream := more[1..]), more[0], more[1..]);
      assert [more[0]] + more[1..] == more;
    } else {
      FirstDigit(n);
      DigitsNumber(n);
      DigitsBack(Digits(n), 0, s, more);
    }
  }

  // ---- strings and names ----

  /** An ordinary character of a string goes into the token buffer. */
  lemma {:induction false} PlainStep(s: State, ch: int, rest: seq<int>)
    requires s.ignore && ch > 0 && ch != QUOTE && ch != BACKSLASH && |s.temp| < TEMP_BUF_LEN && s.stream == [ch] + rest
    ensures ParseText(false, s) == ParseText(false, s.(stream := rest, temp := s.temp + [ch]))
  {
    ReadFirst(s, ch, rest);
  }

  /** So does any character behind a backslash. */
  lemma {:induction false} EscapedStep(s: State, ch: int, rest: seq<int>)
    requires s.ignore && ch > 0 && |s.temp| < TEMP_BUF_LEN && s.stream == [BACKSLASH] + ([ch] + rest)
    ensures ParseText(false, s) == ParseText(false, s.(stream := rest, temp := s.temp + [ch]))
  {
    ReadFirst(s, BACKSLASH, [ch] + rest);
    ReadFirst(s.(stream := [ch] + rest), ch, rest);
  }

  lemma {:induction false} QuoteStep(s: State, more: seq<int>)
    requires s.ignore && Plain(s.temp) && |s.temp| < TEMP_BUF_LEN && s.stream == [QUOTE] + more
    ensures ParseText(false, s) == Ok(s.temp, s.(stream := more, temp := [], ignore := false))
  {
    ReadFirst(s, QUOTE, more);
    PlainIsCString(s.temp);
  }

  lemma {:induction false} EscapeFirst(t: seq<int>, tail: seq<int>)
    requires t != []
    ensures Escape(t) + tail ==
            (if t[0] == QUOTE || t[0] == BACKSLASH then [BACKSLASH] + ([t[0]] + (Escape(t[1..]) + tail))
             else [t[0]] + (Escape(t[1..]) + tail))
  {
    if t[0] == QUOTE || t[0] == BACKSLASH {
      assert [BACKSLASH, t[0]] == [BACKSLASH] + [t[0]];
      Assoc([BACKSLASH], [t[0]], Escape(t[1..]));
      Assoc([BACKSLASH], [t[0]] + Escape(t[1..]), tail);
    }
    Assoc([t[0]], Escape(t[1..]), tail);
  }

  lemma {:induction false} TextBack(t: seq<int>, s: State, more: seq<int>)
    requires s.ignore && Plain(t) && Plain(s.temp) && |s.temp| + |t| < TEMP_BUF_LEN && s.stream == Escape(t) + ([QUOTE] + more)
    ensures ParseText(false, s) == Ok(s.temp + t, s.(stream := more, temp := [], ignore := false))
    decreases |t|
  {
    if t == [] {
      assert s.stream == [QUOTE] + more && s.temp + t == s.temp;
      QuoteStep(s, more);
    } else {
      var ch, rest := t[0], Escape(t[1..]) + ([QUOTE] + more);
      EscapeFirst(t, [QUOTE] + more);
      if ch == QUOTE || ch == BACKSLASH {
        EscapedStep(s, ch, rest);
      } else {
        PlainStep(s, ch, rest);
      }
      PlainJoin(s.temp, [ch]);
      TextBack(t[1..], s.(stream := rest, temp := s.temp + [ch]), more);
      Snoc(s.temp, t);
    }
  }

  lemma {:induction false} RefBack(t: seq<int>, s: State, more: seq<int>)
    requires !s.ignore && Plain(s.temp) && s.temp + t != [] && |s.temp| + |t| < TEMP_BUF_LEN
    requires (forall k | 0 <= k < |t| :: IsNameChar(t[k])) && s.stream == t + more && more != [] && Delimiter(more[0])
    ensures ParseName(s) == Ok(s.temp + t, s.(stream := more, temp := []))
    decreases |t|
  {
    if t == [] {
      assert s.stream == [more[0]] + more[1..];
      ReadFirst(s, more[0], more[1..]);
      PushBack(s.(stream := more[1..]), more[0], more[1..]);
      assert [more[0]] + more[1..] == more && s.temp + t == s.temp;
      PlainIsCString(s.temp);
    } else {
      var ch := t[0];
      Cons(t, more);
      ReadFirst(s, ch, t[1..] + more);
      PlainJoin(s.temp, [ch]);
      RefBack(t[1..], s.(stream := t[1..] + more, temp := s.temp + [ch]), more);
      Snoc(s.temp, t);
    }
  }

  lemma {:induction false} WordBack(word: seq<int>, s: State, more: seq<int>)
    requires (forall k | 0 <= k < |word| :: word[k] != HASH) && s.stream == word + more
    ensures Expect(word, s) == Ok(true, s.(stream := more))
    decreases |word|
  {
    if word == [] {
      assert s.stream == more;
    } else {
      Cons(word, more);
      ReadFirst(s, word[0], word[1..] + more);
      WordBack(word[1..], s.(stream := word[1..] + more), more);
    }
  }

  // ---- values and commands ----

  /** The parser at a place where a value or a command may start. */
  predicate Ready(s: State) {
    s.temp == [] && !s.ignore
  }

  lemma {:induction false} StringBack(text: seq<int>, s: State, more: seq<int>)
    requires Short(text) && Plain(text) && Ready(s) && s.stream == Escape(text) + ([QUOTE] + more)
    ensures Lower(ParseString(s.(nesting := s.nesting + 1))) == Ok(text, s.(stream := more))
  {
    TextBack(text, s.(nesting := s.nesting + 1, ignore := true), more);
    assert s.temp + text == text;
  }

  lemma {:induction false} StringCase(text: seq<int>, s: State, more: seq<int>)
    requires Short(text) && Plain(text) && Ready(s) && s.stream == (Escape(text) + [QUOTE]) + more
    ensures ParseValue(QUOTE, s) == Ok(Str(text), s.(stream := more))
  {
    Assoc(Escape(text), [QUOTE], more);
    StringBack(text, s, more);
  }

  lemma {:induction false} ReferenceCase(name: seq<int>, s: State, more: seq<int>)
    requires WellFormed(Reference(name)) && Ready(s) && s.stream == name + more && more != [] && Delimiter(more[0])
    ensures ParseValue(DOLLAR, s) == Ok(Reference(name), s.(stream := more))
  {
    hide ParseName, Delimiter;
    RefBack(name, s, more);
    assert s.temp + name == name;
  }

  lemma {:induction false} BooleanCase(b: bool, s: State, more: seq<int>)
    requires Ready(s) && s.stream == Rest(Boolean(b)) + more
    ensures ParseValue(First(Boolean(b)), s) == Ok(Boolean(b), s.(stream := more))
  {
    WordBack(if b then RUE else ALSE, s, more);
  }

  lemma {:induction false} ListCase(values: seq<Value>, s: State, more: seq<int>)
    requires AllWellFormed(values) && Ready(s) && s.stream == (RenderArgs(values) + [CLOSE_LIST]) + more
    ensures ParseValue(OPEN_LIST, s) == Ok(List(values), s.(stream := more))
    decreases values, 2
  {
    Assoc(RenderArgs(values), [CLOSE_LIST], more);
    ArgsBack(false, values, false, [], s.(nesting := s.nesting + 1), CLOSE_LIST, more);
    assert [] + values == values;
  }

  lemma {:induction false} BlockCase(cmds: seq<Command>, s: State, more: seq<int>)
    requires CommandsWellFormed(cmds, true) && Ready(s) && s.stream == (RenderCommands(cmds) + [CLOSE_BLOCK]) + more
    ensures ParseValue(OPEN_BLOCK, s) == Ok(Commands(cmds), s.(stream := more))
    decreases cmds, 2
  {
    Assoc(RenderCommands(cmds), [CLOSE_BLOCK], more);
    CommandsBack(cmds, CLOSE_BLOCK, [], s.(nesting := s.nesting + 1), more);
    assert [] + cmds == cmds;
  }

  lemma {:induction false} ValueBack(v: Value, s: State, more: seq<int>)
    requires WellFormed(v) && Ready(s) && s.stream == Rest(v) + more && more != [] && Delimiter(more[0])
    ensures First(v) != EOF && ParseValue(First(v), s) == Ok(v, s.(stream := more))
    decreases v, 3
  {
    match v {
      case Integer(n) => IntegerBack(n, s, more);
      case Boolean(b) => BooleanCase(b, s, more);
      case Str(text) => StringCase(text, s, more);
      case List(values) => ListCase(values, s, more);
      case Commands(cmds) => BlockCase(cmds, s, more);
      case Reference(name) => ReferenceCase(name, s, more);
    }
  }

  /** The first character of a value starts a value and nothing else. */
  lemma {:induction false} FirstCharacter(v: Value)
    ensures var ch := First(v);
      !IsSpace(ch) && ch != HASH && ch != BACKSLASH && ch != CLOSE_BLOCK && ch != CLOSE_LIST && ch != EOF && ch > 0
  {
  }

  /** A space is skipped and then a value read. */
  lemma {:induction false} OneValue(command: bool, v: Value, needSpace: bool, done: seq<Value>, s: State, rest: seq<int>)
    requires WellFormed(v) && Ready(s) && s.stream == [SPACE] + ([First(v)] + (Rest(v) + rest))
    requires rest != [] && Delimiter(rest[0])
    ensures ParseValues(command, false, needSpace, done, s) == ParseValues(command, false, true, done + [v], s.(stream := rest))
    decreases v, 4
  {
    hide First, Rest, WellFormed, Read, ParseValue;
    var s1, s2 := s.(stream := [First(v)] + (Rest(v) + rest)), s.(stream := Rest(v) + rest);
    ReadFirst(s, SPACE, s1.stream);
    FirstCharacter(v);
    ReadFirst(s1, First(v), s2.stream);
    ValueBack(v, s2, rest);
    assert s1 == s.(stream := s1.stream) && s2 == s1.(stream := s2.stream);
    assert ParseValues(command, false, needSpace, done, s) == ParseValues(command, false, false, done, s1);
  }

  /** A list of arguments, up to the character that ends it. */
  lemma {:induction false} ArgsBack(command: bool, vs: seq<Value>, needSpace: bool, done: seq<Value>, s: State, end: int, more: seq<int>)
    requires AllWellFormed(vs) && Ready(s) && end == (if command then NEWLINE else CLOSE_LIST)
    requires s.stream == RenderArgs(vs) + ([end] + more)
    ensures ParseValues(command, false, needSpace, done, s) == Ok(done + vs, s.(stream := more))
    decreases vs, 1
  {
    if vs == [] {
      assert s.stream == [end] + more && done + vs == done;
      ArgsEnd(command, needSpace, done, s, end, more);
    } else {
      hide ParseValues, RenderArgs, WellFormed;
      var v, rest := vs[0], RenderArgs(vs[1..]) + ([end] + more);
      SpaceAndValue(vs, [end] + more);
      FirstOfRest(vs[1..], end, more);
      OneValue(command, v, needSpace, done, s, rest);
      ArgsBack(command, vs[1..], true, done + [v], s.(stream := rest), end, more);
      Snoc(done, vs);
    }
  }

  lemma {:induction false} ArgsEnd(command: bool, needSpace: bool, done: seq<Value>, s: State, end: int, more: seq<int>)
    requires !s.ignore && end == (if command then NEWLINE else CLOSE_LIST) && s.stream == [end] + more
    ensures ParseValues(command, false, needSpace, done, s) == Ok(done, s.(stream := more))
  {
    ReadFirst(s, end, more);
  }

  lemma {:induction false} Snoc<T>(done: seq<T>, t: seq<T>)
    requires t != []
    ensures done + [t[0]] + t[1..] == done + t
  {
  }

  lemma {:induction false} SpaceAndValue(vs: seq<Value>, tail: seq<int>)
    requires vs != []
    ensures RenderArgs(vs) + tail == [SPACE] + ([First(vs[0])] + (Rest(vs[0]) + (RenderArgs(vs[1..]) + tail)))
  {
    var f, r, a := [First(vs[0])], Rest(vs[0]), RenderArgs(vs[1..]);
    Assoc([SPACE], f + (r + a), tail);
    Assoc(f, r + a, tail);
    Assoc(r, a, tail);
  }

  lemma {:induction false} FirstOfRest(vs: seq<Value>, end: int, more: seq<int>)
    requires Delimiter(end)
    ensures var t := RenderArgs(vs) + ([end] + more); t != [] && Delimiter(t[0])
  {
  }

  /** The characters of a command name go into the token buffer. */
  lemma {:induction false} NameIn(name: seq<int>, endch: int, done: seq<Command>, s: State, tail: seq<int>)
    requires !s.ignore && |s.temp| + |name| <= TEMP_BUF_LEN && (endch == CLOSE_BLOCK || endch == EOF)
    requires NameChars(name, endch == CLOSE_BLOCK)
    requires s.stream == name + tail
    ensures ParseCommandLoop(endch, done, s) == ParseCommandLoop(endch, done, s.(stream := tail, temp := s.temp + name))
    decreases |name|
  {
    if name == [] {
      assert s.stream == tail && s.temp + name == s.temp;
    } else {
      Cons(name, tail);
      ReadFirst(s, name[0], name[1..] + tail);
      NameIn(name[1..], endch, done, s.(stream := name[1..] + tail, temp := s.temp + [name[0]]), tail);
      Snoc(s.temp, name);
    }
  }

  /** A line of text is read as its command. */
  lemma {:induction false} OneCommand(c: Command, endch: int, done: seq<Command>, s: State, rest: seq<int>)
    requires NameOk(c.name, endch == CLOSE_BLOCK) && AllWellFormed(c.args) && Ready(s) && (endch == CLOSE_BLOCK || endch == EOF)
    requires s.stream == c.name + (RenderArgs(c.args) + ([NEWLINE] + rest))
    ensures ParseCommandLoop(endch, done, s) == ParseCommandLoop(endch, done + [c], s.(stream := rest))
    decreases c, 3
  {
    var line := RenderArgs(c.args) + ([NEWLINE] + rest);
    NameIn(c.name, endch, done, s, line);
    assert s.temp + c.name == c.name;
    CommandEnds(c, endch, done, s.(stream := line, temp := c.name), rest);
  }

  /** A list of commands, up to the closing brace or the end of the file. */
  lemma {:induction false} CommandsBack(cs: seq<Command>, endch: int, done: seq<Command>, s: State, more: seq<int>)
    requires CommandsWellFormed(cs, endch == CLOSE_BLOCK) && Ready(s)
    requires endch == CLOSE_BLOCK || (endch == EOF && more == [])
    requires s.stream == RenderCommands(cs) + (if endch == EOF then [] else [endch] + more)
    ensures ParseCommandLoop(endch, done, s) == Ok(done + cs, s.(stream := more))
    decreases cs, 1
  {
    var tail := if endch == EOF then [] else [endch] + more;
    if cs == [] {
      assert s.stream == tail && done + cs == done;
      if endch != EOF {
        ReadFirst(s, endch, more);
      }
    } else {
      var c, rest := cs[0], RenderCommands(cs[1..]) + tail;
      var line := RenderArgs(c.args) + ([NEWLINE] + rest);
      CommandLine(cs, tail);
      OneCommand(c, endch, done, s, rest);
      CommandsBack(cs[1..], endch, done + [c], s.(stream := rest), more);
      Snoc(done, cs);
    }
  }

  lemma {:induction false} CommandLine(cs: seq<Command>, tail: seq<int>)
    requires cs != []
    ensures RenderCommands(cs) + tail == cs[0].name + (RenderArgs(cs[0].args) + ([NEWLINE] + (RenderCommands(cs[1..]) + tail)))
  {
    var n, a, r := cs[0].name, RenderArgs(cs[0].args), RenderCommands(cs[1..]);
    Assoc(n, a + ([NEWLINE] + r), tail);
    Assoc(a, [NEWLINE] + r, tail);
    Assoc([NEWLINE], r, tail);
  }

  /** White space completes a command name; the arguments follow. */
  lemma {:induction false} NameEnds(ch: int, tail: seq<int>, endch: int, done: seq<Command>, s: State, args: seq<Value>, e: State)
    requires s.temp != [] && Short(s.temp) && Plain(s.temp) && s.stream == [ch] + tail && IsSpace(ch)
    requires ParseValues(true, false, false, [], s.(temp := [])) == Ok(args, e)
    ensures ParseCommandLoop(endch, done, s) == ParseCommandLoop(endch, done + [Command(s.temp, args)], e)
  {
    ReadFirst(s, ch, tail);
    PlainIsCString(s.temp);
    PushBack(s.(stream := tail, temp := []), ch, tail);
  }

  /** With its name in the buffer, the rest of the line gives the arguments. */
  lemma {:induction false} CommandEnds(c: Command, endch: int, done: seq<Command>, s: State, rest: seq<int>)
    requires NameOk(c.name, endch == CLOSE_BLOCK) && AllWellFormed(c.args) && s.temp == c.name && !s.ignore
    requires s.stream == RenderArgs(c.args) + ([NEWLINE] + rest)
    ensures ParseCommandLoop(endch, done, s) == ParseCommandLoop(endch, done + [c], s.(stream := rest, temp := []))
    decreases c.args, 2
  {
    FirstIsBlank(c.args, rest);
    ArgsBack(true, c.args, false, [], s.(temp := []), NEWLINE, rest);
    assert [] + c.args == c.args && s.stream == [s.stream[0]] + s.stream[1..];
    NameEnds(s.stream[0], s.stream[1..], endch, done, s, c.args, s.(stream := rest, temp := []));
  }

  lemma {:induction false} FirstIsBlank(vs: seq<Value>, rest: seq<int>)
    ensures var t := RenderArgs(vs) + ([NEWLINE] + rest); t != [] && (t[0] == SPACE || t[0] == NEWLINE)
  {
  }

  /** Parsing the text of a command list gives the list back and leaves nothing behind: no
      character, no token, no nesting. */
  lemma {:induction false} ParseBack(cs: seq<Command>)
    requires CommandsWellFormed(cs, false)
    ensures ParseCommands(State(RenderCommands(cs), [], 0, false)) == Ok(cs, State([], [], 0, false))
  {
    var s := State(RenderCommands(cs), [], 0, false);
    assert s.stream + [] == s.stream;
    CommandsBack(cs, EOF, [], s, []);
    assert [] + cs == cs;
  }

  /** A token that an earlier, failed parse left in the buffer reads as if it stood in front of
      the file: the buffer is not emptied when a parse starts. */
  lemma {:induction false} LeftOver(token: seq<int>, text: seq<int>)
    requires Short(token) && NameChars(token, false)
    ensures ParseCommands(State(text, token, 0, false)) == ParseCommands(State(token + text, [], 0, false))
  {
    var s := State(token + text, [], 0, false);
    NameIn(token, EOF, [], s, text);
    assert s.temp + token == token;
  }

  /** A parse that fails inside a command name leaves one: "x {" and a name, cut off there. */
  lemma {:induction false} CutOff(name: seq<int>)
    requires |name| <= TEMP_BUF_LEN && NameChars(name, true)
    ensures ParseCommands(State([120] + ([SPACE] + ([OPEN_BLOCK] + name)), [], 0, false)) == Error(State([], name, 0, false))
  {
    var block := [OPEN_BLOCK] + name;
    var s := State([120] + ([SPACE] + block), [], 0, false);
    CutOffArgs(name);
    assert s.temp + [120] == [120];
    NameIn([120], EOF, [], s, [SPACE] + block);
    NameFails(State([SPACE] + block, [120], 0, false), SPACE, block, EOF, Error(State([], name, 0, false)));
  }

  lemma {:induction false} NameFails(s: State, ch: int, tail: seq<int>, endch: int, r: Out<seq<Value>>)
    requires s.temp != [] && Short(s.temp) && s.stream == [ch] + tail && IsSpace(ch)
    requires r.Error? && ParseValues(true, false, false, [], s.(temp := [])) == r
    ensures ParseCommandLoop(endch, [], s) == Error(r.s)
  {
    ReadFirst(s, ch, tail);
    PushBack(s.(stream := tail, temp := []), ch, tail);
  }

  lemma {:induction false} CutOffArgs(name: seq<int>)
    requires |name| <= TEMP_BUF_LEN && NameChars(name, true)
    ensures ParseValues(true, false, false, [], State([SPACE] + ([OPEN_BLOCK] + name), [], 0, false)) == Error(State([], name, 0, false))
  {
    var s, s' := State([SPACE] + ([OPEN_BLOCK] + name), [], 0, false), State([OPEN_BLOCK] + name, [], 0, false);
    ReadFirst(s, SPACE, s'.stream);
    CutOffBlock(name);
    ReadFirst(s', OPEN_BLOCK, name);
    assert ParseValues(true, false, false, [], s') == Error(State([], name, 0, false));
  }

  lemma {:induction false} CutOffBlock(name: seq<int>)
    requires |name| <= TEMP_BUF_LEN && NameChars(name, true)
    ensures ParseValue(OPEN_BLOCK, State(name, [], 0, false)) == Error(State([], name, 0, false))
  {
    CutOffName(name);
    assert ParseCommands(State(name, [], 1, false)) == Error(State([], name, 1, false));
  }

  lemma {:induction false} CutOffName(name: seq<int>)
    requires |name| <= TEMP_BUF_LEN && NameChars(name, true)
    ensures ParseCommandLoop(CLOSE_BLOCK, [], State(name, [], 1, false)) == Error(State([], name, 1, false))
  {
    var s := State(name, [], 1, false);
    assert name + [] == name && s.temp + name == name;
    NameIn(name, CLOSE_BLOCK, [], s, []);
  }

  /** A character is read unless a comment is open that no line end closes; then the loader
      reads the end of the file for ever. */
  lemma {:induction false} ReadHangs(s: State)
    ensures Read(s).None? <==> s.stream != [] && s.stream[0] == HASH && !s.ignore && NEWLINE !in s.stream
  {
    if s.stream != [] {
      SkipExact(s.stream[1..]);
    }
  }

  lemma {:induction false} SkipExact(st: seq<int>)
    ensures SkipComment(st).None? <==> NEWLINE !in st
  {
    if st != [] {
      SkipExact(st[1..]);
    }
  }
}

/** A scanner that reads a configuration file once, character by character, and remembers only
    what is open: it tells how a parse ends, and with what in the token buffer. */
module ConfigScan {
  import opened Common
  import opened ConfigParser
  import ConfigImage

  // ---- the scanner ----

  /** What the scanner is inside of.  Behind the last complete token, command names and strings
      are remembered as far as they have been read. */
  datatype Mode =
    | Names(nested: bool, name: seq<int>)
    | Args(command: bool, escaped: bool, needSpace: bool)
    | Text(quoted: bool, len: nat)
    | Word(rest: seq<int>)
    | Zero
    | Number(base: nat)
    | Variable(chars: nat)

  datatype Stack = Bottom | On(top: Mode, below: Stack)

  /** One character further: what is open then, or an unexpected character, or too long a token. */
  datatype Fed = Now(stack: Stack) | Unexpected | TooLong

  /** How the parse of a whole file ends; an error leaves a name in the token buffer. */
  datatype End = Accepted | Rejected(name: seq<int>) | Lost

  /** The start of a value. */
  function Begin(ch: int, k: Stack): Fed {
    if ch == ZERO then Now(On(Zero, k))
    else if IsDigit(ch) then Now(On(Number(10), k))
    else if ch == 116 then Now(On(Word(RUE), k))
    else if ch == 102 then Now(On(Word(ALSE), k))
    else if ch == QUOTE then Now(On(Text(false, 0), k))
    else if ch == OPEN_LIST then Now(On(Args(false, false, false), k))
    else if ch == OPEN_BLOCK then Now(On(Names(true, []), k))
    else if ch == DOLLAR then Now(On(Variable(0), k))
    else Unexpected
  }

  function FeedNames(nested: bool, name: seq<int>, k: Stack, ch: int): Fed {
    if (nested && ch == CLOSE_BLOCK) || IsSpace(ch) then
      if |name| == TEMP_BUF_LEN then TooLong
      else if nested && ch == CLOSE_BLOCK then Now(k)
      else if name == [] || ch == NEWLINE then Now(On(Names(nested, []), k))
      else Now(On(Args(true, false, false), On(Names(nested, []), k)))
    else if |name| == TEMP_BUF_LEN then TooLong
    else Now(On(Names(nested, name + [ch]), k))
  }

  function Feed(stack: Stack, ch: int): Fed
    decreases stack
  {
    match stack
    case Bottom => Unexpected
    case On(Names(nested, name), k) => FeedNames(nested, name, k, ch)
    case On(Args(command, escaped, needSpace), k) =>
      if !escaped && ch == BACKSLASH then Now(On(Args(command, true, needSpace), k))
      else if !escaped && ch == NEWLINE && command then Now(k)
      else if command && ch == CLOSE_BLOCK then Feed(k, ch)
      else if !command && ch == CLOSE_LIST then Now(k)
      else if IsSpace(ch) then Now(On(Args(command, false, false), k))
      else if needSpace then Unexpected
      else Begin(ch, On(Args(command, false, true), k))
    case On(Text(quoted, len), k) =>
      if !quoted && ch == QUOTE then (if len < TEMP_BUF_LEN then Now(k) else TooLong)
      else if !quoted && ch == BACKSLASH then Now(On(Text(true, len), k))
      else if len < TEMP_BUF_LEN then Now(On(Text(false, len + 1), k))
      else TooLong
    case On(Word(rest), k) =>
      if rest == [] || ch != rest[0] then Unexpected
      else if |rest| == 1 then Now(k)
      else Now(On(Word(rest[1..]), k))
    case On(Zero, k) =>
      if ToLower(ch) == 120 then Now(On(Number(16), k))
      else if IsXDigit(ch) && DigitValue(ch) < 8 then Now(On(Number(8), k))
      else Feed(k, ch)
    case On(Number(base), k) =>
      if IsXDigit(ch) && DigitValue(ch) < base then Now(stack) else Feed(k, ch)
    case On(Variable(chars), k) =>
      if IsNameChar(ch) then (if chars < TEMP_BUF_LEN then Now(On(Variable(chars + 1), k)) else TooLong)
      else if chars == 0 then Unexpected
      else if chars < TEMP_BUF_LEN then Feed(k, ch)
      else TooLong
  }

  /** The end of the file.  It ends a command name of the file itself, a number and a variable
      name, but neither block nor list, string nor word. */
  function Finish(stack: Stack): End {
    match stack
    case Bottom => Accepted
    case On(Names(nested, name), k) =>
      if nested then Rejected(name) else if |name| < TEMP_BUF_LEN then Finish(k) else Lost
    case On(Args(command, escaped, _), k) => if command && !escaped then Finish(k) else Rejected([])
    case On(Text(_, _), _) => Rejected([])
    case On(Word(_), _) => Rejected([])
    case On(Zero, k) => Finish(k)
    case On(Number(_), k) => Finish(k)
    case On(Variable(chars), k) =>
      if chars == 0 then Rejected([]) else if chars < TEMP_BUF_LEN then Finish(k) else Lost
  }

  predicate InText(stack: Stack) {
    stack.On? && stack.top.Text?
  }

  function After(fed: Fed, st: seq<int>): End
    decreases |st|, 1
  {
    match fed
    case Now(stack) => Scan(stack, st)
    case Unexpected => Rejected([])
    case TooLong => Lost
  }

  /** How the parse ends, from what is open and the characters still to come. */
  function Scan(stack: Stack, st: seq<int>): End
    decreases |st|, 0
  {
    if st == [] || st[0] == EOF then Finish(stack)
    else if st[0] == HASH && !InText(stack) then
      match SkipComment(st[1..])
      case None => Lost
      case Some(rest) => After(Feed(stack, NEWLINE), rest)
    else After(Feed(stack, st[0]), st[1..])
  }

  // ---- one character ----

  /** Characters of a file: anything but NUL, and behind them an end of file that was returned. */
  predicate Good(st: seq<int>) {
    forall k | 0 <= k < |st| :: st[k] > 0 || (st[k] == EOF && k == |st| - 1)
  }

  /** A character that was read, or the end of the file. */
  function Taken(stack: Stack, ch: int, st: seq<int>): End {
    if ch == EOF then Finish(stack) else After(Feed(stack, ch), st)
  }

  lemma {:induction false} SkipGood(st: seq<int>)
    requires Good(st) && SkipComment(st).Some?
    ensures Good(SkipComment(st).value)
  {
    if st != [] && st[0] != NEWLINE {
      SkipGood(st[1..]);
    }
  }

  /** Reading a character and scanning it are the same. */
  lemma {:induction false} ReadScan(s: State, stack: Stack)
    requires Good(s.stream) && s.ignore == InText(stack)
    ensures Read(s).None? ==> Scan(stack, s.stream) == Lost
    ensures Read(s).Some? ==>
      var (ch, s') := Read(s).value;
      && Scan(stack, s.stream) == Taken(stack, ch, s'.stream) && Good(s'.stream)
      && (ch > 0 || (ch == EOF && s'.stream == [])) && (ch == HASH ==> s.ignore)
  {
    if s.stream != [] && s.stream[0] == HASH && !s.ignore && SkipComment(s.stream[1..]).Some? {
      SkipGood(s.stream[1..]);
    }
  }

  /** A returned character is scanned next. */
  lemma {:induction false} PushScan(s: State, ch: int, stack: Stack)
    requires Good(s.stream) && !InText(stack) && (ch > 0 || (ch == EOF && s.stream == [])) && ch != HASH
    ensures Scan(stack, Push(s, ch).stream) == Taken(stack, ch, s.stream) && Good(Push(s, ch).stream)
  {
    var st := [ch] + s.stream;
    assert st[0] == ch && st[1..] == s.stream;
  }

  // ---- the parser and the scanner ----

  predicate Steady(s: State) {
    Good(s.stream) && !s.ignore && s.temp == []
  }

  /** The scanner comes to the same end as the parser: behind a result it goes on with what was
      open before. */
  ghost predicate Follows<T>(r: Out<T>, e: End, k: Stack) {
    match r
    case Ok(_, s) => Steady(s) && e == Scan(k, s.stream)
    case Error(s) => e == Rejected(s.temp)
    case Stuck => e == Lost
  }

  lemma {:induction false} DigitsScan(ch: int, base: nat, result: nat, s: State, k: Stack)
    requires Steady(s) && !InText(k) && (ch > 0 || (ch == EOF && s.stream == [])) && ch != HASH
    ensures Follows(ParseDigits(ch, base, result, s), Taken(On(Number(base), k), ch, s.stream), k)
    decreases Left(s) + (if ch == EOF then 0 else 1)
  {
    if IsXDigit(ch) && DigitValue(ch) < base {
      ReadScan(s, On(Number(base), k));
      if Read(s).Some? {
        var (next, s') := Read(s).value;
        DigitsScan(next, base, (result * base + DigitValue(ch)) % U64, s', k);
      }
    } else {
      PushScan(s, ch, k);
    }
  }

  /** Octal digits behind a 0, or none. */
  lemma {:induction false} ZeroScan(x: int, s: State, k: Stack)
    requires Steady(s) && !InText(k) && (x > 0 || (x == EOF && s.stream == [])) && x != HASH && ToLower(x) != 120
    ensures Follows(ParseDigits(x, 8, 0, s), Taken(On(Zero, k), x, s.stream), k)
  {
    DigitsScan(x, 8, 0, s, k);
  }

  lemma {:induction false} IntegerScan(ch: int, s: State, k: Stack)
    requires IsDigit(ch) && Steady(s) && !InText(k)
    ensures Follows(ParseInteger(ch, s), After(Begin(ch, k), s.stream), k)
  {
    if ch == ZERO {
      ReadScan(s, On(Zero, k));
      if Read(s).Some? {
        var (x, s') := Read(s).value;
        if ToLower(x) == 120 {
          ReadScan(s', On(Number(16), k));
          if Read(s').Some? {
            var (y, s'') := Read(s').value;
            DigitsScan(y, 16, 0, s'', k);
          }
        } else {
          ZeroScan(x, s', k);
        }
      }
    } else {
      DigitsScan(ch, 10, 0, s, k);
    }
  }

  lemma {:induction false} TextScan(escaped: bool, s: State, k: Stack)
    requires Good(s.stream) && s.ignore && |s.temp| <= TEMP_BUF_LEN && !InText(k)
    ensures Follows(ParseText(escaped, s), Scan(On(Text(escaped, |s.temp|), k), s.stream), k)
    decreases Left(s)
  {
    ReadScan(s, On(Text(escaped, |s.temp|), k));
    if Read(s).Some? {
      var (ch, s') := Read(s).value;
      if ch == EOF || (!escaped && ch == QUOTE) {
      } else if !escaped && ch == BACKSLASH {
        TextScan(true, s', k);
      } else if |s.temp| < TEMP_BUF_LEN {
        TextScan(false, s'.(temp := s.temp + [ch]), k);
      }
    }
  }

  lemma {:induction false} NameScan(s: State, k: Stack)
    requires Good(s.stream) && !s.ignore && |s.temp| <= TEMP_BUF_LEN && !InText(k)
    ensures Follows(ParseName(s), Scan(On(Variable(|s.temp|), k), s.stream), k)
    decreases Left(s)
  {
    hide Count;
    ReadScan(s, On(Variable(|s.temp|), k));
    if Read(s).Some? {
      var (ch, s') := Read(s).value;
      if !IsNameChar(ch) {
        PushScan(s', ch, k);
      } else if |s.temp| < TEMP_BUF_LEN {
        NameScan(s'.(temp := s.temp + [ch]), k);
      }
    }
  }

  lemma {:induction false} WordScan(word: seq<int>, s: State, k: Stack)
    requires Steady(s) && word != [] && EOF !in word && !InText(k)
    ensures Follows(Expect(word, s), Scan(On(Word(word), k), s.stream), k)
    decreases |word|
  {
    ReadScan(s, On(Word(word), k));
    if Read(s).Some? {
      var (ch, s') := Read(s).value;
      if ch == word[0] && |word| > 1 {
        WordScan(word[1..], s', k);
      }
    }
  }

  lemma {:induction false} ValueScan(ch: int, s: State, k: Stack)
    requires ch != EOF && Steady(s) && !InText(k)
    ensures Follows(ParseValue(ch, s), After(Begin(ch, k), s.stream), k)
    decreases Left(s), 4
  {
    var s1 := s.(nesting := s.nesting + 1);
    if IsDigit(ch) {
      IntegerScan(ch, s, k);
    } else if ch == 116 {
      WordScan(RUE, s, k);
    } else if ch == 102 {
      WordScan(ALSE, s, k);
    } else if ch == QUOTE {
      TextScan(false, s1.(ignore := true), k);
    } else if ch == OPEN_LIST {
      ValuesScan(false, false, false, [], s1, k);
    } else if ch == OPEN_BLOCK {
      CommandsScan(CLOSE_BLOCK, [], s1, k);
    } else if ch == DOLLAR {
      NameScan(s, k);
    }
  }

  lemma {:induction false} ValuesScan(command: bool, escaped: bool, needSpace: bool, done: seq<Value>, s: State, k: Stack)
    requires Steady(s) && !InText(k)
    ensures Follows(ParseValues(command, escaped, needSpace, done, s), Scan(On(Args(command, escaped, needSpace), k), s.stream), k)
    decreases Left(s), 1
  {
    ReadScan(s, On(Args(command, escaped, needSpace), k));
    if Read(s).Some? {
      var (ch, s') := Read(s).value;
      if !escaped && ch == BACKSLASH {
        ValuesScan(command, true, needSpace, done, s', k);
      } else if !escaped && (ch == NEWLINE || ch == EOF) && command {
      } else if command && ch == CLOSE_BLOCK {
        PushScan(s', ch, k);
      } else if !command && ch == CLOSE_LIST {
      } else if IsSpace(ch) {
        ValuesScan(command, false, false, done, s', k);
      } else if !needSpace && ch != EOF {
        var k' := On(Args(command, false, true), k);
        ValueScan(ch, s', k');
        var v := ParseValue(ch, s');
        if v.Ok? {
          ValuesScan(command, false, true, done + [v.value], v.s, k);
        }
      }
    }
  }

  lemma {:induction false} CommandsScan(endch: int, done: seq<Command>, s: State, k: Stack)
    requires Good(s.stream) && !s.ignore && |s.temp| <= TEMP_BUF_LEN && !InText(k)
    requires endch == CLOSE_BLOCK || (endch == EOF && k == Bottom)
    ensures Follows(ParseCommandLoop(endch, done, s), Scan(On(Names(endch == CLOSE_BLOCK, s.temp), k), s.stream), k)
    ensures var r := ParseCommandLoop(endch, done, s); r.Ok? && endch == EOF ==> r.s.stream == []
    decreases Left(s), 2, if s.temp == [] then 0 else 1
  {
    var nested := endch == CLOSE_BLOCK;
    ReadScan(s, On(Names(nested, s.temp), k));
    if Read(s).Some? {
      var (ch, s') := Read(s).value;
      if ch == endch || IsSpace(ch) {
        if s.temp == [] {
          if ch != endch {
            CommandsScan(endch, done, s', k);
          }
        } else if |s.temp| < TEMP_BUF_LEN {
          CommandScan(ch, endch, s', k);
          var c := ParseCommand(ch, s');
          if c.Ok? {
            CommandsScan(endch, done + [c.value], c.s, k);
          }
        }
      } else if ch != EOF && |s.temp| < TEMP_BUF_LEN {
        CommandsScan(endch, done, s'.(temp := s.temp + [ch]), k);
      }
    }
  }

  /** The end of a command name and the arguments behind it. */
  lemma {:induction false} CommandScan(ch: int, endch: int, s: State, k: Stack)
    requires Good(s.stream) && !s.ignore && 0 < |s.temp| < TEMP_BUF_LEN && !InText(k)
    requires (endch == CLOSE_BLOCK || (endch == EOF && k == Bottom)) && (ch == endch || IsSpace(ch)) && (ch == EOF ==> s.stream == [])
    ensures Follows(ParseCommand(ch, s), Taken(On(Names(endch == CLOSE_BLOCK, s.temp), k), ch, s.stream), On(Names(endch == CLOSE_BLOCK, []), k))
    decreases Left(s) + (if ch == EOF then 0 else 1), 2, 0
  {
    var s1, k' := s.(temp := []), On(Names(endch == CLOSE_BLOCK, []), k);
    PushScan(s1, ch, On(Args(true, false, false), k'));
    ValuesScan(true, false, false, [], Push(s1, ch), k');
  }

  // ---- where a file ends ----

  /** What is open at the end of a text, if the scanner gets there. */
  function Place(stack: Stack, st: seq<int>): Option<Stack>
    decreases |st|
  {
    if st == [] then Some(stack)
    else if st[0] == HASH && !InText(stack) then
      match SkipComment(st[1..])
      case None => None
      case Some(rest) => (match Feed(stack, NEWLINE) case Now(k) => Place(k, rest) case _ => None)
    else
      match Feed(stack, st[0])
      case Now(k) => Place(k, st[1..])
      case _ => None
  }

  /** The file ends inside a command name of an open block. */
  predicate EndsInName(text: seq<int>, name: seq<int>) {
    name != [] && var p := Place(On(Names(false, []), Bottom), text); p.Some? && p.value.On? && p.value.top == Names(true, name)
  }

  /** A name under way is only ever on top. */
  predicate Tidy(k: Stack) {
    k.On? ==> (k.top.Names? ==> k.top.name == []) && Tidy(k.below)
  }

  predicate TidyBelow(k: Stack) {
    k.On? ==> Tidy(k.below)
  }

  /** The name under way. */
  function Pending(k: Stack): seq<int> {
    if k.On? && k.top.Names? then k.top.name else []
  }

  /** A character extends the name under way or leaves none. */
  lemma {:induction false} FeedTidy(stack: Stack, ch: int)
    requires TidyBelow(stack) && Feed(stack, ch).Now?
    ensures var k := Feed(stack, ch).stack; TidyBelow(k) && (Pending(k) == [] || Pending(k) == Pending(stack) + [ch])
    decreases stack
  {
    if stack.On? && Tidy(stack.below) && Feed(stack.below, ch).Now? {
      FeedTidy(stack.below, ch);
    }
  }

  /** What the scanner has under way at the end of a text is the end of that text. */
  lemma {:induction false} PendingIsEnd(stack: Stack, st: seq<int>)
    requires TidyBelow(stack) && Place(stack, st).Some?
    ensures TidyBelow(Place(stack, st).value) && EndsWith(Pending(stack) + st, Pending(Place(stack, st).value))
    decreases |st|
  {
    if st == [] {
      assert Pending(stack) + st == Pending(stack);
    } else if st[0] == HASH && !InText(stack) {
      var rest, k := SkipComment(st[1..]).value, Feed(stack, NEWLINE).stack;
      FeedTidy(stack, NEWLINE);
      NewlineEnds(stack);
      PendingIsEnd(k, rest);
      SkipIsEnd(st[1..]);
      OneOn(Pending(stack), st, Pending(k), rest, Pending(Place(k, rest).value));
    } else {
      var k := Feed(stack, st[0]).stack;
      FeedTidy(stack, st[0]);
      PendingIsEnd(k, st[1..]);
      OneOn(Pending(stack), st, Pending(k), st[1..], Pending(Place(k, st[1..]).value));
    }
  }

  lemma {:induction false} OneOn(x: seq<int>, st: seq<int>, y: seq<int>, rest: seq<int>, w: seq<int>)
    requires st != [] && EndsWith(st[1..], rest) && EndsWith(y + rest, w)
    requires y == [] || (y == x + [st[0]] && rest == st[1..])
    ensures EndsWith(x + st, w)
  {
    assert x + [st[0]] + st[1..] == x + st;
    if y == [] {
      assert y + rest == rest;
      EndOfEnd(x + [st[0]], st[1..], rest, w);
    }
  }

  predicate EndsWith(t: seq<int>, w: seq<int>) {
    |w| <= |t| && t[|t| - |w|..] == w
  }

  /** The end of an end of a text is an end of the text. */
  lemma {:induction false} EndOfEnd(x: seq<int>, y: seq<int>, z: seq<int>, w: seq<int>)
    requires EndsWith(y, z) && EndsWith(z, w)
    ensures EndsWith(x + y, w)
  {
    var t := x + y;
    assert t[|t| - |w|..] == y[|y| - |w|..];
    assert y[|y| - |w|..] == z[|z| - |w|..];
  }

  lemma {:induction false} SkipIsEnd(st: seq<int>)
    requires SkipComment(st).Some?
    ensures EndsWith(st, SkipComment(st).value)
  {
    if st[0] != NEWLINE {
      SkipIsEnd(st[1..]);
      EndOfEnd([st[0]], st[1..], SkipComment(st).value, SkipComment(st).value);
      assert [st[0]] + st[1..] == st;
    }
  }

  /** A line end leaves no name under way. */
  lemma {:induction false} NewlineEnds(stack: Stack)
    requires TidyBelow(stack) && Feed(stack, NEWLINE).Now?
    ensures Pending(Feed(stack, NEWLINE).stack) == []
    decreases stack
  {
    if stack.On? && Tidy(stack.below) && Feed(stack.below, NEWLINE).Now? {
      NewlineEnds(stack.below);
    }
  }

  /** The scan of a text is what its end makes of the place it gets to. */
  lemma {:induction false} PlaceIsScan(stack: Stack, st: seq<int>)
    requires forall k | 0 <= k < |st| :: st[k] > 0
    ensures match Place(stack, st)
      case Some(k) => Scan(stack, st) == Finish(k)
      case None => Scan(stack, st) == Rejected([]) || Scan(stack, st) == Lost
    decreases |st|
  {
    if st != [] {
      if st[0] == HASH && !InText(stack) {
        if SkipComment(st[1..]).Some? && Feed(stack, NEWLINE).Now? {
          SkipPositive(st[1..]);
          PlaceIsScan(Feed(stack, NEWLINE).stack, SkipComment(st[1..]).value);
        }
      } else if Feed(stack, st[0]).Now? {
        PlaceIsScan(Feed(stack, st[0]).stack, st[1..]);
      }
    }
  }

  lemma {:induction false} SkipPositive(st: seq<int>)
    requires (forall k | 0 <= k < |st| :: st[k] > 0) && SkipComment(st).Some?
    ensures forall k | 0 <= k < |SkipComment(st).value| :: SkipComment(st).value[k] > 0
  {
    if st[0] != NEWLINE {
      SkipPositive(st[1..]);
    }
  }

  lemma {:induction false} FinishNames(k: Stack)
    requires TidyBelow(k)
    ensures match Finish(k)
      case Rejected(name) => name == (if k.On? && k.top.Names? && k.top.nested then k.top.name else [])
      case _ => !(k.On? && k.top.Names? && k.top.nested)
    decreases k
  {
    if k.On? {
      FinishNames(k.below);
    }
  }

  // ---- the theorem ----

  /** A parse ends as the scan does; and an error leaves a name in the token buffer exactly if
      the file ends inside a command name of an open block, which is then the name left, and the
      end of the file. */
  lemma {:induction false} ParseEnds(text: seq<int>, name: seq<int>)
    requires forall k | 0 <= k < |text| :: text[k] > 0
    ensures var r, e := ParseCommands(State(text, [], 0, false)), Scan(On(Names(false, []), Bottom), text);
      match r
      case Ok(_, s) => e == Accepted && s == State([], [], 0, false)
      case Error(s) => e == Rejected(s.temp) && s.nesting == 0
      case Stuck => e == Lost
    ensures EndsInName(text, name) <==>
      var r := ParseCommands(State(text, [], 0, false)); r.Error? && r.s.temp == name && name != []
    ensures EndsInName(text, name) ==> EndsWith(text, name)
  {
    var k := On(Names(false, []), Bottom);
    CommandsScan(EOF, [], State(text, [], 0, false), Bottom);
    if ParseCommands(State(text, [], 0, false)).Ok? {
      ConfigImage.CommandsParsed(EOF, [], State(text, [], 0, false));
    }
    PlaceIsScan(k, text);
    if Place(k, text).Some? {
      PendingIsEnd(k, text);
      FinishNames(Place(k, text).value);
      assert [] + text == text;
    }
  }
}

/** The configuration parser: command lists, their arguments, and what reading characters one
    by one with a slot for one returned character and one shared token buffer makes of them. */
module ConfigParser {
  import opened Common

  // ---- characters ----

  const EOF: int := -1
  const NEWLINE: int := 10
  const SPACE: int := 32
  const QUOTE: int := 34
  const HASH: int := 35
  const DOLLAR: int := 36
  const ZERO: int := 48
  const BACKSLASH: int := 92
  const OPEN_LIST: int := 91
  const CLOSE_LIST: int := 93
  const OPEN_BLOCK: int := 123
  const CLOSE_BLOCK: int := 125
  const UNDERSCORE: int := 95

  const TEMP_BUF_LEN: nat := 512

  predicate IsSpace(ch: int) {
    9 <= ch <= 13 || ch == SPACE
  }

  predicate IsDigit(ch: int) {
    48 <= ch <= 57
  }

  predicate IsAlnum(ch: int) {
    IsDigit(ch) || 97 <= ch <= 122 || 65 <= ch <= 90
  }

  predicate IsXDigit(ch: int) {
    IsDigit(ch) || 97 <= ch <= 102 || 65 <= ch <= 70
  }

  predicate IsNameChar(ch: int) {
    IsAlnum(ch) || ch == UNDERSCORE
  }

  function ToLower(ch: int): int {
    if 65 <= ch <= 90 then ch + 32 else ch
  }

  function DigitValue(ch: int): int {
    if IsDigit(ch) then ch - ZERO else ToLower(ch) - 97 + 10
  }

  // ---- commands ----

  datatype Value =
    | Integer(n: nat)
    | Boolean(b: bool)
    | Str(text: seq<int>)
    | List(values: seq<Value>)
    | Commands(cmds: seq<Command>)
    | Reference(name: seq<int>)

  datatype Command = Command(name: seq<int>, args: seq<Value>)

  // ---- the state of the parser ----

  /** The characters still to come, a returned one first; the token collected so far; the
      nesting count; and whether '#' is an ordinary character. */
  datatype State = State(stream: seq<int>, temp: seq<int>, nesting: nat, ignore: bool)

  /** A result, a parse error, or neither: the loader reads on for ever in a comment that the
      end of the file cuts off, or writes behind the token buffer. */
  datatype Out<T> = Ok(value: T, s: State) | Error(s: State) | Stuck

  /** How many characters are still to come. */
  function Count(st: seq<int>): (n: nat)
    ensures n <= |st|
  {
    if st == [] then 0 else (if st[0] == EOF then 0 else 1) + Count(st[1..])
  }

  function Left(s: State): nat {
    Count(s.stream)
  }

  /** The stream behind the next line end. */
  function SkipComment(st: seq<int>): (r: Option<seq<int>>)
    ensures r.Some? ==> |r.value| < |st| && Count(r.value) < Count(st)
  {
    if st == [] then None
    else if st[0] == NEWLINE then Some(st[1..])
    else SkipComment(st[1..])
  }

  /** read_char: a comment reads as its line end. */
  function Read(s: State): (r: Option<(int, State)>)
    ensures r.Some? ==> Left(r.value.1) <= Left(s) && (r.value.0 != EOF ==> Left(r.value.1) < Left(s))
    ensures r.Some? ==> r.value.1 == s.(stream := r.value.1.stream)
  {
    if s.stream == [] then Some((EOF, s))
    else if s.stream[0] == HASH && !s.ignore then
      match SkipComment(s.stream[1..])
      case None => None
      case Some(st) => Some((NEWLINE, s.(stream := st)))
    else Some((s.stream[0], s.(stream := s.stream[1..])))
  }

  /** return_char */
  function Push(s: State, ch: int): (r: State)
    ensures Left(r) <= Left(s) + (if ch == EOF then 0 else 1)
  {
    if ch == 0 then s else s.(stream := [ch] + s.stream)
  }

  /** One more character of a token; None if it does not fit the buffer. */
  function Put(s: State, ch: int): Option<State> {
    if |s.temp| < TEMP_BUF_LEN then Some(s.(temp := s.temp + [ch])) else None
  }

  /** What strdup makes of the buffer. */
  function CString(t: seq<int>): seq<int> {
    if t == [] || t[0] == 0 then [] else [t[0]] + CString(t[1..])
  }

  /** The token is complete; None if there is no room for its terminator. */
  function Token(s: State): Option<(seq<int>, State)> {
    if |s.temp| < TEMP_BUF_LEN then Some((CString(s.temp), s.(temp := []))) else None
  }

  // ---- the parser as functions ----

  function ParseDigits(ch: int, base: nat, result: nat, s: State): (r: Out<nat>)
    ensures r.Ok? ==> Left(r.s) <= Left(s) + (if ch == EOF || (IsXDigit(ch) && DigitValue(ch) < base) then 0 else 1)
    ensures r.Ok? ==> r.s.temp == s.temp
    ensures !r.Stuck? ==> r.s.nesting == s.nesting
    decreases Left(s) + (if ch == EOF then 0 else 1)
  {
    if IsXDigit(ch) && DigitValue(ch) < base then
      match Read(s)
      case None => Stuck
      case Some((next, s')) => ParseDigits(next, base, (result * base + DigitValue(ch)) % U64, s')
    else Ok(result, Push(s, ch))
  }

  /** parse_integer, with its first character already read. */
  function ParseInteger(ch: int, s: State): (r: Out<nat>)
    requires IsDigit(ch)
    ensures r.Ok? ==> Left(r.s) <= Left(s)
    ensures r.Ok? ==> r.s.temp == s.temp
    ensures !r.Stuck? ==> r.s.nesting == s.nesting
  {
    if ch == ZERO then
      match Read(s)
      case None => Stuck
      case Some((x, s')) =>
        if ToLower(x) == 120 then
          match Read(s')
          case None => Stuck
          case Some((y, s'')) => ParseDigits(y, 16, 0, s'')
        else ParseDigits(x, 8, 0, s')
    else ParseDigits(ch, 10, 0, s)
  }

  /** The loop of parse_string. */
  function ParseText(escaped: bool, s: State): (r: Out<seq<int>>)
    ensures r.Ok? ==> Left(r.s) < Left(s)
    ensures r.Ok? ==> r.s.temp == []
    ensures !r.Stuck? ==> r.s.nesting == s.nesting
    decreases Left(s)
  {
    match Read(s)
    case None => Stuck
    case Some((ch, s')) =>
      if ch == EOF then Error(s'.(temp := []))
      else if !escaped && ch == QUOTE then
        match Token(s'.(ignore := false))
        case None => Stuck
        case Some((t, s'')) => Ok(t, s'')
      else if !escaped && ch == BACKSLASH then ParseText(true, s')
      else
        match Put(s', ch)
        case None => Stuck
        case Some(s'') => ParseText(false, s'')
  }

  /** parse_string: '#' is an ordinary character up to the closing quote. */
  function ParseString(s: State): (r: Out<seq<int>>)
    ensures r.Ok? ==> Left(r.s) < Left(s)
    ensures r.Ok? ==> r.s.temp == []
    ensures !r.Stuck? ==> r.s.nesting == s.nesting
  {
    ParseText(false, s.(ignore := true))
  }

  /** parse_variable_name */
  function ParseName(s: State): (r: Out<seq<int>>)
    ensures r.Ok? ==> Left(r.s) <= Left(s)
    ensures r.Ok? ==> r.s.temp == []
    ensures !r.Stuck? ==> r.s.nesting == s.nesting
    decreases Left(s)
  {
    match Read(s)
    case None => Stuck
    case Some((ch, s')) =>
      if !IsNameChar(ch) then
        if s'.temp == [] then Error(s')
        else
          match Token(Push(s', ch))
          case None => Stuck
          case Some((t, s'')) => Ok(t, s'')
      else
        match Put(s', ch)
        case None => Stuck
        case Some(s'') => ParseName(s'')
  }

  /** expect_char for each character of a word. */
  function Expect(word: seq<int>, s: State): (r: Out<bool>)
    ensures r.Ok? ==> Left(r.s) <= Left(s)
    ensures r.Ok? ==> r.s.temp == s.temp
    ensures !r.Stuck? ==> r.s.nesting == s.nesting
    decreases |word|
  {
    if word == [] then Ok(true, s)
    else
      match Read(s)
      case None => Stuck
      case Some((ch, s')) => if ch != word[0] then Error(s') else Expect(word[1..], s')
  }

  const RUE: seq<int> := [114, 117, 101]
  const ALSE: seq<int> := [97, 108, 115, 101]

  function Wrap<T>(r: Out<T>, f: T -> Value): (v: Out<Value>)
    ensures v.Ok? <==> r.Ok?
    ensures v.Ok? ==> v.s == r.s && v.value == f(r.value)
  {
    match r
    case Ok(x, s) => Ok(f(x), s)
    case Error(s) => Error(s)
    case Stuck => Stuck
  }

  /** The nesting count is raised before and lowered after. */
  function Lower<T>(r: Out<T>): (v: Out<T>)
    ensures v.Ok? <==> r.Ok?
    ensures v.Ok? ==> v.value == r.value && v.s.stream == r.s.stream && v.s.temp == r.s.temp
  {
    match r
    case Ok(x, s) => Ok(x, s.(nesting := if s.nesting > 0 then s.nesting - 1 else 0))
    case Error(s) => Error(s.(nesting := if s.nesting > 0 then s.nesting - 1 else 0))
    case Stuck => Stuck
  }

  /** A new value of parse_value_list, with its first character already read. */
  function ParseValue(ch: int, s: State): (r: Out<Value>)
    requires ch != EOF
    ensures r.Ok? ==> Left(r.s) <= Left(s)
    ensures r.Ok? && s.temp == [] ==> r.s.temp == []
    ensures !r.Stuck? ==> r.s.nesting == s.nesting
    decreases Left(s), 4
  {
    if IsDigit(ch) then Wrap(ParseInteger(ch, s), n => Integer(n))
    else if ch == 116 then Wrap(Expect(RUE, s), b => Boolean(true))
    else if ch == 102 then Wrap(Expect(ALSE, s), b => Boolean(false))
    else if ch == QUOTE then Wrap(Lower(ParseString(s.(nesting := s.nesting + 1))), t => Str(t))
    else if ch == OPEN_LIST then Wrap(Lower(ParseValues(false, false, false, [], s.(nesting := s.nesting + 1))), vs => List(vs))
    else if ch == OPEN_BLOCK then Wrap(Lower(ParseCommands(s.(nesting := s.nesting + 1))), cs => Commands(cs))
    else if ch == DOLLAR then Wrap(ParseName(s), t => Reference(t))
    else Error(s)
  }

  /** The loop of parse_value_list. */
  function ParseValues(command: bool, escaped: bool, needSpace: bool, done: seq<Value>, s: State): (r: Out<seq<Value>>)
    ensures r.Ok? ==> Left(r.s) <= Left(s)
    ensures r.Ok? && s.temp == [] ==> r.s.temp == []
    ensures !r.Stuck? ==> r.s.nesting == s.nesting
    decreases Left(s), 1
  {
    match Read(s)
    case None => Stuck
    case Some((ch, s')) =>
      if !escaped && ch == BACKSLASH then ParseValues(command, true, needSpace, done, s')
      else if !escaped && (ch == NEWLINE || ch == EOF) && command then Ok(done, s')
      else if command && ch == CLOSE_BLOCK then Ok(done, Push(s', ch))
      else if !command && ch == CLOSE_LIST then Ok(done, s')
      else if IsSpace(ch) then ParseValues(command, false, false, done, s')
      else if needSpace || ch == EOF then Error(s')
      else
        match ParseValue(ch, s')
        case Stuck => Stuck
        case Error(s'') => Error(s'')
        case Ok(v, s'') => ParseValues(command, false, true, done + [v], s'')
  }

  /** parse_command_list: the end is '}' when nested and the end of the file otherwise. */
  function ParseCommands(s: State): (r: Out<seq<Command>>)
    ensures r.Ok? ==> Left(r.s) <= Left(s)
    ensures r.Ok? ==> r.s.temp == []
    ensures !r.Stuck? ==> r.s.nesting == s.nesting
    decreases Left(s), 3
  {
    ParseCommandLoop(if s.nesting > 0 then CLOSE_BLOCK else EOF, [], s)
  }

  /** A command whose name is in the buffer and ends with this character. */
  function ParseCommand(ch: int, s: State): (r: Out<Command>)
    ensures r.Ok? ==> Left(r.s) <= Left(s) + (if ch == EOF then 0 else 1)
    ensures r.Ok? ==> r.s.temp == []
    ensures !r.Stuck? ==> r.s.nesting == s.nesting
    decreases Left(s) + (if ch == EOF then 0 else 1), 2, 0
  {
    match Token(s)
    case None => Stuck
    case Some((name, s')) =>
      match ParseValues(true, false, false, [], Push(s', ch))
      case Stuck => Stuck
      case Error(e) => Error(e)
      case Ok(args, e) => Ok(Command(name, args), e)
  }

  function ParseCommandLoop(endch: int, done: seq<Command>, s: State): (r: Out<seq<Command>>)
    ensures r.Ok? ==> Left(r.s) <= Left(s)
    ensures r.Ok? ==> r.s.temp == []
    ensures !r.Stuck? ==> r.s.nesting == s.nesting
    decreases Left(s), 2, if s.temp == [] then 0 else 1
  {
    match Read(s)
    case None => Stuck
    case Some((ch, s')) =>
      if ch == endch || IsSpace(ch) then
        if s'.temp == [] then
          if ch == endch then Ok(done, s') else ParseCommandLoop(endch, done, s')
        else
          match ParseCommand(ch, s')
          case Stuck => Stuck
          case Error(e) => Error(e)
          case Ok(c, e) => ParseCommandLoop(endch, done + [c], e)
      else if ch == EOF then Error(s')
      else
        match Put(s', ch)
        case None => Stuck
        case Some(s'') => ParseCommandLoop(endch, done, s'')
  }
}
